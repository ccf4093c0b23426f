/**
 * What each setter of pkg/controller/noderollout/status/status.go does to a
 * status value, and the whole merge pass UpdateStatus runs before it decides
 * whether to write. The in-place setters of module Status are proved against
 * these functions.
 */
module Merge {
  import opened Types
  import opened Names
  import opened Conditions

  /** setPhase: the phase is overwritten only when the result carries one. */
  function PhaseStep(s: NodeRolloutStatus, r: Result): NodeRolloutStatus
  {
    match r.phase
    case Some(p) => s.(phase := p)
    case None => s
  }

  /** setReplacementsCreated: write-once list with a derived count. */
  function CreatedStep(s: NodeRolloutStatus, r: Result): Outcome<NodeRolloutStatus>
  {
    match (s.replacementsCreated, r.replacementsCreated)
    case (Some(_), Some(_)) => Err(CreatedImmutableMsg)
    case (None, Some(names)) => Ok(s.(replacementsCreated := Some(names), replacementsCreatedCount := |names|))
    case (_, None) => Ok(s)
  }

  /** setReplacementsCompleted: merge into a stored list, or copy when none is stored. */
  function CompletedStep(s: NodeRolloutStatus, r: Result): NodeRolloutStatus
  {
    match (s.replacementsCompleted, r.replacementsCompleted)
    case (Some(stored), Some(names)) =>
      var merged := Merged(stored, names);
      s.(replacementsCompleted := Some(merged), replacementsCompletedCount := |merged|)
    case (None, Some(names)) =>
      s.(replacementsCompleted := Some(names), replacementsCompletedCount := |names|)
    case (_, None) => s
  }

  /** setCompletionTimestamp: write-once timestamp. */
  function TimestampStep(s: NodeRolloutStatus, r: Result): Outcome<NodeRolloutStatus>
  {
    match (s.completionTimestamp, r.completionTimestamp)
    case (Some(_), Some(_)) => Err(TimestampImmutableMsg)
    case (None, Some(t)) => Ok(s.(completionTimestamp := Some(t)))
    case (_, None) => Ok(s)
  }

  /** The condition setCreatedCondition builds for a non-empty reason. */
  function CreatedCondition(r: Result, now: Time): NodeRolloutCondition
  {
    match r.replacementsCreatedError
    case Some(e) => NewNodeRolloutCondition(ReplacementsCreatedType, ConditionFalse, r.replacementsCreatedReason, e, now)
    case None => NewNodeRolloutCondition(ReplacementsCreatedType, ConditionTrue, r.replacementsCreatedReason, "", now)
  }

  /** setCreatedCondition. */
  function CreatedConditionStep(s: NodeRolloutStatus, r: Result, now: Time): Outcome<NodeRolloutStatus>
  {
    if r.replacementsCreatedError.Some? && r.replacementsCreatedReason == "" then Err(CreatedReasonMsg)
    else if r.replacementsCreatedReason != "" then Ok(s.(conditions := SetCondition(s.conditions, CreatedCondition(r, now))))
    else Ok(s)
  }

  /** The condition setInProgressCondition builds for a non-empty reason. */
  function InProgressCondition(r: Result, now: Time): NodeRolloutCondition
  {
    var status := if r.replacementsInProgressError.Some? || r.replacementsInProgressReason == CompletedReason
                  then ConditionFalse else ConditionTrue;
    var message := match r.replacementsInProgressError case Some(e) => e case None => "";
    NewNodeRolloutCondition(ReplacementsInProgressType, status, r.replacementsInProgressReason, message, now)
  }

  /** setInProgressCondition. */
  function InProgressConditionStep(s: NodeRolloutStatus, r: Result, now: Time): Outcome<NodeRolloutStatus>
  {
    if r.replacementsInProgressError.Some? && r.replacementsInProgressReason == "" then Err(InProgressReasonMsg)
    else if r.replacementsInProgressReason != "" then Ok(s.(conditions := SetCondition(s.conditions, InProgressCondition(r, now))))
    else Ok(s)
  }

  /** The six setters in UpdateStatus's order; the first error ends the pass. */
  function MergeStatus(stored: NodeRolloutStatus, r: Result, now: Time): Outcome<NodeRolloutStatus>
  {
    var s1 := PhaseStep(stored, r);
    var s2 :- CreatedStep(s1, r);
    var s3 := CompletedStep(s2, r);
    var s4 :- TimestampStep(s3, r);
    var s5 :- CreatedConditionStep(s4, r, now);
    InProgressConditionStep(s5, r, now)
  }

  /** The merge fails exactly on an immutable-field conflict or an error without a reason. */
  predicate Conflicts(stored: NodeRolloutStatus, r: Result)
  {
    || (stored.replacementsCreated.Some? && r.replacementsCreated.Some?)
    || (stored.completionTimestamp.Some? && r.completionTimestamp.Some?)
    || (r.replacementsCreatedError.Some? && r.replacementsCreatedReason == "")
    || (r.replacementsInProgressError.Some? && r.replacementsInProgressReason == "")
  }

  /** The status before the condition setters run: the first four setters. */
  function FieldsMerged(stored: NodeRolloutStatus, r: Result): Outcome<NodeRolloutStatus>
  {
    var s2 :- CreatedStep(PhaseStep(stored, r), r);
    TimestampStep(CompletedStep(s2, r), r)
  }

  /** The conditions after both condition setters, when neither fails. */
  function ConditionsMerged(conds: seq<NodeRolloutCondition>, r: Result, now: Time): seq<NodeRolloutCondition>
  {
    var afterCreated := if r.replacementsCreatedReason != "" then SetCondition(conds, CreatedCondition(r, now)) else conds;
    if r.replacementsInProgressReason != "" then SetCondition(afterCreated, InProgressCondition(r, now)) else afterCreated
  }

  /** The condition setters change only the conditions. */
  lemma MergeSplit(stored: NodeRolloutStatus, r: Result, now: Time)
    requires MergeStatus(stored, r, now).Ok?
    ensures FieldsMerged(stored, r).Ok?
    ensures FieldsMerged(stored, r).value.conditions == stored.conditions
    ensures MergeStatus(stored, r, now).value ==
      FieldsMerged(stored, r).value.(conditions := ConditionsMerged(stored.conditions, r, now))
  {
  }

  /** The first violated rule, in the order the setters run, decides the message. */
  lemma MergeErrors(stored: NodeRolloutStatus, r: Result, now: Time)
    ensures MergeStatus(stored, r, now).Err? <==> Conflicts(stored, r)
    ensures MergeStatus(stored, r, now).Err? ==>
      MergeStatus(stored, r, now).msg ==
        if stored.replacementsCreated.Some? && r.replacementsCreated.Some? then CreatedImmutableMsg
        else if stored.completionTimestamp.Some? && r.completionTimestamp.Some? then TimestampImmutableMsg
        else if r.replacementsCreatedError.Some? && r.replacementsCreatedReason == "" then CreatedReasonMsg
        else InProgressReasonMsg
  {
  }

  /** Phase: the result's phase when it carries one, the stored phase otherwise. */
  lemma MergePhase(stored: NodeRolloutStatus, r: Result, now: Time)
    requires MergeStatus(stored, r, now).Ok?
    ensures MergeStatus(stored, r, now).value.phase ==
      if r.phase.Some? then r.phase.value else stored.phase
  {
    MergeSplit(stored, r, now);
    FieldsMergedFields(stored, r);
  }

  /** The field-by-field effect of the first four setters. */
  lemma FieldsMergedFields(stored: NodeRolloutStatus, r: Result)
    requires FieldsMerged(stored, r).Ok?
    ensures var s := FieldsMerged(stored, r).value;
      && s.phase == (if r.phase.Some? then r.phase.value else stored.phase)
      && s.replacementsCreated == (if stored.replacementsCreated.Some? then stored.replacementsCreated else r.replacementsCreated)
      && s.replacementsCreatedCount ==
           (if stored.replacementsCreated.None? && r.replacementsCreated.Some? then |r.replacementsCreated.value|
            else stored.replacementsCreatedCount)
      && s.replacementsCompleted == CompletedStep(stored, r).replacementsCompleted
      && s.replacementsCompletedCount == CompletedStep(stored, r).replacementsCompletedCount
      && s.replacementsFailed == stored.replacementsFailed
      && s.replacementsFailedCount == stored.replacementsFailedCount
      && s.completionTimestamp == (if stored.completionTimestamp.Some? then stored.completionTimestamp else r.completionTimestamp)
  {
    var s1 := PhaseStep(stored, r);
    var s2 := CreatedStep(s1, r).value;
    assert CompletedStep(s2, r).replacementsCompleted == CompletedStep(stored, r).replacementsCompleted;
    assert CompletedStep(s2, r).replacementsCompletedCount == CompletedStep(stored, r).replacementsCompletedCount;
  }

  /** ReplacementsCreated is set once, with its count, and never changed afterwards. */
  lemma MergeCreated(stored: NodeRolloutStatus, r: Result, now: Time)
    requires MergeStatus(stored, r, now).Ok?
    ensures var s := MergeStatus(stored, r, now).value;
      && (stored.replacementsCreated.Some? ==>
            s.replacementsCreated == stored.replacementsCreated
            && s.replacementsCreatedCount == stored.replacementsCreatedCount)
      && (stored.replacementsCreated.None? && r.replacementsCreated.Some? ==>
            s.replacementsCreated == r.replacementsCreated
            && s.replacementsCreatedCount == |r.replacementsCreated.value|)
      && (r.replacementsCreated.None? ==>
            s.replacementsCreated == stored.replacementsCreated
            && s.replacementsCreatedCount == stored.replacementsCreatedCount)
  {
    MergeSplit(stored, r, now);
    FieldsMergedFields(stored, r);
  }

  /**
   * ReplacementsCompleted only grows: the stored list is a prefix of the new
   * one, the new one holds exactly the names of both, only new names are
   * appended, and the count is the new length.
   */
  lemma MergeCompleted(stored: NodeRolloutStatus, r: Result, now: Time)
    requires MergeStatus(stored, r, now).Ok?
    requires stored.replacementsCompleted.Some? && r.replacementsCompleted.Some?
    ensures var s := MergeStatus(stored, r, now).value;
      var old_ := stored.replacementsCompleted.value;
      var new_ := r.replacementsCompleted.value;
      && s.replacementsCompleted.Some?
      && old_ <= s.replacementsCompleted.value
      && (forall x :: x in s.replacementsCompleted.value <==> x in old_ || x in new_)
      && (forall i :: |old_| <= i < |s.replacementsCompleted.value| ==> s.replacementsCompleted.value[i] !in old_)
      && s.replacementsCompletedCount == |s.replacementsCompleted.value|
  {
    var old_ := stored.replacementsCompleted.value;
    var new_ := r.replacementsCompleted.value;
    MergedExtends(old_, new_);
    MergedElements(old_, new_);
    MergedAppendsOnlyNew(old_, new_);
    MergeSplit(stored, r, now);
    FieldsMergedFields(stored, r);
  }

  /** A first list of completions is copied verbatim; without one the stored list stays. */
  lemma MergeCompletedCopyOrKeep(stored: NodeRolloutStatus, r: Result, now: Time)
    requires MergeStatus(stored, r, now).Ok?
    ensures var s := MergeStatus(stored, r, now).value;
      && (stored.replacementsCompleted.None? && r.replacementsCompleted.Some? ==>
            s.replacementsCompleted == r.replacementsCompleted
            && s.replacementsCompletedCount == |r.replacementsCompleted.value|)
      && (r.replacementsCompleted.None? ==>
            s.replacementsCompleted == stored.replacementsCompleted
            && s.replacementsCompletedCount == stored.replacementsCompletedCount)
  {
    MergeSplit(stored, r, now);
    FieldsMergedFields(stored, r);
  }

  /** Duplicate-free completions stay duplicate-free. */
  lemma MergeCompletedNoDups(stored: NodeRolloutStatus, r: Result, now: Time)
    requires MergeStatus(stored, r, now).Ok?
    requires stored.replacementsCompleted.Some? ==> NoDups(stored.replacementsCompleted.value)
    requires r.replacementsCompleted.Some? ==> NoDups(r.replacementsCompleted.value)
    ensures var s := MergeStatus(stored, r, now).value;
      s.replacementsCompleted.Some? ==> NoDups(s.replacementsCompleted.value)
  {
    if stored.replacementsCompleted.Some? && r.replacementsCompleted.Some? {
      MergedNoDups(stored.replacementsCompleted.value, r.replacementsCompleted.value);
    }
  }

  /** CompletionTimestamp is set once and never changed afterwards. */
  lemma MergeTimestamp(stored: NodeRolloutStatus, r: Result, now: Time)
    requires MergeStatus(stored, r, now).Ok?
    ensures MergeStatus(stored, r, now).value.completionTimestamp ==
      if stored.completionTimestamp.Some? then stored.completionTimestamp else r.completionTimestamp
  {
    MergeSplit(stored, r, now);
    FieldsMergedFields(stored, r);
  }

  /** ReplacementsFailed is never read from the result: the stored list and count stay. */
  lemma MergeKeepsFailed(stored: NodeRolloutStatus, r: Result, now: Time)
    requires MergeStatus(stored, r, now).Ok?
    ensures MergeStatus(stored, r, now).value.replacementsFailed == stored.replacementsFailed
    ensures MergeStatus(stored, r, now).value.replacementsFailedCount == stored.replacementsFailedCount
  {
    MergeSplit(stored, r, now);
    FieldsMergedFields(stored, r);
  }

  /** An empty reason leaves the conditions as stored. */
  lemma MergeNoReasonKeepsConditions(stored: NodeRolloutStatus, r: Result, now: Time)
    requires MergeStatus(stored, r, now).Ok?
    requires r.replacementsCreatedReason == "" && r.replacementsInProgressReason == ""
    ensures MergeStatus(stored, r, now).value.conditions == stored.conditions
  {
  }

  /**
   * Without a created reason, setCreatedCondition changes nothing: the created
   * condition is the stored one, and every condition but the in-progress one
   * stays, in its stored order.
   */
  lemma MergeNoCreatedReasonKeepsCreated(stored: NodeRolloutStatus, r: Result, now: Time)
    requires MergeStatus(stored, r, now).Ok?
    requires r.replacementsCreatedReason == ""
    ensures FindCondition(MergeStatus(stored, r, now).value.conditions, ReplacementsCreatedType) ==
      FindCondition(stored.conditions, ReplacementsCreatedType)
    ensures WithoutType(MergeStatus(stored, r, now).value.conditions, ReplacementsInProgressType) ==
      WithoutType(stored.conditions, ReplacementsInProgressType)
  {
    MergeSplit(stored, r, now);
    if r.replacementsInProgressReason != "" {
      var after := SetCondition(stored.conditions, InProgressCondition(r, now));
      SetConditionKeepsOthers(stored.conditions, InProgressCondition(r, now));
      FindOtherType(stored.conditions, after, ReplacementsCreatedType, ReplacementsInProgressType);
    }
  }

  /**
   * Without an in-progress reason, setInProgressCondition changes nothing: the
   * in-progress condition is the stored one, and every condition but the
   * created one stays, in its stored order.
   */
  lemma MergeNoInProgressReasonKeepsInProgress(stored: NodeRolloutStatus, r: Result, now: Time)
    requires MergeStatus(stored, r, now).Ok?
    requires r.replacementsInProgressReason == ""
    ensures FindCondition(MergeStatus(stored, r, now).value.conditions, ReplacementsInProgressType) ==
      FindCondition(stored.conditions, ReplacementsInProgressType)
    ensures WithoutType(MergeStatus(stored, r, now).value.conditions, ReplacementsCreatedType) ==
      WithoutType(stored.conditions, ReplacementsCreatedType)
  {
    MergeSplit(stored, r, now);
    if r.replacementsCreatedReason != "" {
      var after := SetCondition(stored.conditions, CreatedCondition(r, now));
      SetConditionKeepsOthers(stored.conditions, CreatedCondition(r, now));
      FindOtherType(stored.conditions, after, ReplacementsInProgressType, ReplacementsCreatedType);
    }
  }

  /**
   * With a reason, the created condition afterwards has that reason and status
   * False exactly when an error came with it. It is the stored condition when
   * that already had this status and reason; otherwise its message is the
   * error text (empty without an error), its update time is `now`, and its
   * transition time is the stored one when the status is unchanged, `now`
   * otherwise.
   */
  lemma MergeCreatedCondition(stored: NodeRolloutStatus, r: Result, now: Time)
    requires MergeStatus(stored, r, now).Ok?
    requires r.replacementsCreatedReason != ""
    ensures var c := FindCondition(MergeStatus(stored, r, now).value.conditions, ReplacementsCreatedType);
      var prev := FindCondition(stored.conditions, ReplacementsCreatedType);
      var status := if r.replacementsCreatedError.Some? then ConditionFalse else ConditionTrue;
      var message := if r.replacementsCreatedError.Some? then r.replacementsCreatedError.value else "";
      && c.Some?
      && c.value.status == status
      && c.value.reason == r.replacementsCreatedReason
      && if prev.Some? && prev.value.status == status && prev.value.reason == r.replacementsCreatedReason then c == prev
         else
           && c.value.message == message
           && c.value.lastUpdateTime == now
           && c.value.lastTransitionTime == (if prev.Some? && prev.value.status == status then prev.value.lastTransitionTime else now)
  {
    MergeSplit(stored, r, now);
    var cc := CreatedCondition(r, now);
    var conds5 := SetCondition(stored.conditions, cc);
    SetConditionLookup(stored.conditions, cc);
    if r.replacementsInProgressReason != "" {
      var ic := InProgressCondition(r, now);
      SetConditionKeepsOthers(conds5, ic);
      FindOtherType(conds5, SetCondition(conds5, ic), ReplacementsCreatedType, ReplacementsInProgressType);
    }
  }

  /**
   * The same for the in-progress condition, whose status is also False when
   * the reason is "ReplacementsCompleted".
   */
  lemma MergeInProgressCondition(stored: NodeRolloutStatus, r: Result, now: Time)
    requires MergeStatus(stored, r, now).Ok?
    requires r.replacementsInProgressReason != ""
    ensures var c := FindCondition(MergeStatus(stored, r, now).value.conditions, ReplacementsInProgressType);
      var prev := FindCondition(stored.conditions, ReplacementsInProgressType);
      var status := if r.replacementsInProgressError.Some? || r.replacementsInProgressReason == CompletedReason
                    then ConditionFalse else ConditionTrue;
      var message := if r.replacementsInProgressError.Some? then r.replacementsInProgressError.value else "";
      && c.Some?
      && c.value.status == status
      && c.value.reason == r.replacementsInProgressReason
      && if prev.Some? && prev.value.status == status && prev.value.reason == r.replacementsInProgressReason then c == prev
         else
           && c.value.message == message
           && c.value.lastUpdateTime == now
           && c.value.lastTransitionTime == (if prev.Some? && prev.value.status == status then prev.value.lastTransitionTime else now)
  {
    MergeSplit(stored, r, now);
    var conds5 := if r.replacementsCreatedReason != "" then SetCondition(stored.conditions, CreatedCondition(r, now)) else stored.conditions;
    if r.replacementsCreatedReason != "" {
      SetConditionKeepsOthers(stored.conditions, CreatedCondition(r, now));
      FindOtherType(stored.conditions, conds5, ReplacementsInProgressType, ReplacementsCreatedType);
    }
    SetConditionLookup(conds5, InProgressCondition(r, now));
  }

  /** Lists that agree once type `u` is dropped agree on the lookup of any other type. */
  lemma FindOtherType(a: seq<NodeRolloutCondition>, b: seq<NodeRolloutCondition>, t: ConditionType, u: ConditionType)
    requires t != u
    requires WithoutType(a, u) == WithoutType(b, u)
    ensures FindCondition(a, t) == FindCondition(b, t)
  {
    FindWithout(a, t, u);
    FindWithout(b, t, u);
  }

  /** Looking up a type in a list with one more condition at the end. */
  lemma {:induction false} FindSnoc(a: seq<NodeRolloutCondition>, x: NodeRolloutCondition, t: ConditionType)
    ensures FindCondition(a + [x], t) ==
      if FindCondition(a, t).Some? then FindCondition(a, t)
      else if x.condType == t then Some(x) else None
    decreases |a|
  {
    if a == [] {
      assert a + [x] == [x];
    } else {
      FindSnoc(a[1..], x, t);
      assert (a + [x])[1..] == a[1..] + [x];
    }
  }

  lemma {:induction false} FindWithout(a: seq<NodeRolloutCondition>, t: ConditionType, u: ConditionType)
    requires t != u
    ensures FindCondition(WithoutType(a, u), t) == FindCondition(a, t)
    decreases |a|
  {
    if a != [] {
      var init := a[..|a| - 1];
      var last := a[|a| - 1];
      FindWithout(init, t, u);
      assert a == init + [last];
      FindSnoc(init, last, t);
      if last.condType != u {
        assert WithoutType(a, u) == WithoutType(init, u) + [last];
        FindSnoc(WithoutType(init, u), last, t);
      } else {
        assert WithoutType(a, u) == WithoutType(init, u);
      }
    }
  }

  /** The merge keeps at most one condition per type. */
  lemma MergeConditionsUnique(stored: NodeRolloutStatus, r: Result, now: Time)
    requires MergeStatus(stored, r, now).Ok?
    requires AtMostOnePerType(stored.conditions)
    ensures AtMostOnePerType(MergeStatus(stored, r, now).value.conditions)
  {
    MergeSplit(stored, r, now);
    var conds5 := if r.replacementsCreatedReason != "" then SetCondition(stored.conditions, CreatedCondition(r, now)) else stored.conditions;
    if r.replacementsCreatedReason != "" {
      SetConditionUnique(stored.conditions, CreatedCondition(r, now));
    }
    if r.replacementsInProgressReason != "" {
      SetConditionUnique(conds5, InProgressCondition(r, now));
    }
  }

  /** The zero Result merges to the stored status unchanged. */
  lemma MergeZeroResult(stored: NodeRolloutStatus, now: Time)
    ensures MergeStatus(stored, ZeroResult, now) == Ok(stored)
  {
  }

  /** Merging the same completions twice gives the status of merging them once. */
  lemma MergeCompletedTwice(stored: NodeRolloutStatus, names: seq<string>, now: Time)
    ensures var r := ZeroResult.(replacementsCompleted := Some(names));
      var once := MergeStatus(stored, r, now);
      once.Ok? && MergeStatus(once.value, r, now) == once
  {
    var r := ZeroResult.(replacementsCompleted := Some(names));
    if stored.replacementsCompleted.Some? {
      MergedIdempotent(stored.replacementsCompleted.value, names);
    } else {
      MergedElements(names, names);
      MergedAbsorbs(names, names);
    }
  }

  /** Stored {m1, w1} merged with {m2, w2} gives all four names and a count of 4. */
  lemma MergeCompletedExample(stored: NodeRolloutStatus, now: Time)
    requires stored.replacementsCompleted == Some(["example-master-1", "example-worker-1"])
    ensures var r := ZeroResult.(replacementsCompleted := Some(["example-master-2", "example-worker-2"]));
      var s := MergeStatus(stored, r, now);
      && s.Ok?
      && s.value.replacementsCompleted ==
           Some(["example-master-1", "example-worker-1", "example-master-2", "example-worker-2"])
      && s.value.replacementsCompletedCount == 4
  {
    var old_ := ["example-master-1", "example-worker-1"];
    var new_ := ["example-master-2", "example-worker-2"];
    MergedDisjoint(old_, new_);
    assert old_ + new_ == ["example-master-1", "example-worker-1", "example-master-2", "example-worker-2"];
  }
}
