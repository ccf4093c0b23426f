/**
 * The records the NodeRollout status merger works on: the merge input `Result`
 * (pkg/controller/noderollout/status/types.go), the persisted `NodeRolloutStatus`
 * and its conditions (declared in the NodeRollout API types, not part of this model).
 */
module Types {

  /** A Go pointer, slice or error that may be nil. */
  datatype Option<+T> = None | Some(value: T)

  /** The outcome of a setter that can fail with an error message. */
  datatype Outcome<+T> = Ok(value: T) | Err(msg: string) {
    predicate IsFailure() { Err? }

    function PropagateFailure<U>(): Outcome<U>
      requires Err?
    {
      Err(msg)
    }

    function Extract(): T
      requires Ok?
    {
      value
    }
  }

  /** NodeRolloutPhase is a string type in the API ("New", "InProgress", ...). */
  type RolloutPhase = string

  /** An instant, as carried by metav1.Time; only compared for equality here. */
  type Time = int

  datatype ConditionStatus = ConditionTrue | ConditionFalse | ConditionUnknown

  /** The two condition types the merger writes. */
  datatype ConditionType = ReplacementsCreatedType | ReplacementsInProgressType

  datatype NodeRolloutCondition = NodeRolloutCondition(
    condType: ConditionType,
    status: ConditionStatus,
    lastUpdateTime: Time,
    lastTransitionTime: Time,
    reason: string,
    message: string)

  /**
   * The persisted status. The nil-able list and timestamp fields are
   * `Option`s: a present but empty list is different from an absent one, as it
   * is for reflect.DeepEqual. `conditions` is a plain sequence: the merge either
   * leaves it as stored or replaces it with a non-empty list, so a nil and an
   * empty condition list are never compared with each other.
   */
  datatype NodeRolloutStatus = NodeRolloutStatus(
    phase: RolloutPhase,
    replacementsCreated: Option<seq<string>>,
    replacementsCreatedCount: int,
    replacementsCompleted: Option<seq<string>>,
    replacementsCompletedCount: int,
    replacementsFailed: Option<seq<string>>,
    replacementsFailedCount: int,
    completionTimestamp: Option<Time>,
    conditions: seq<NodeRolloutCondition>)

  /**
   * What one reconcile pass learned. Errors are their messages; an empty
   * reason is Go's zero string. The completed error/reason pair and the failed
   * list are declared but never read by the merger.
   */
  datatype Result = Result(
    phase: Option<RolloutPhase>,
    replacementsCompletedError: Option<string>,
    replacementsCompletedReason: string,
    replacementsCreated: Option<seq<string>>,
    replacementsCompleted: Option<seq<string>>,
    replacementsFailed: Option<seq<string>>,
    completionTimestamp: Option<Time>,
    replacementsCreatedError: Option<string>,
    replacementsCreatedReason: string,
    replacementsInProgressError: Option<string>,
    replacementsInProgressReason: string)

  /** `&Result{}`: every field nil or empty. */
  const ZeroResult := Result(None, None, "", None, None, None, None, None, "", None, "")

  const CreatedImmutableMsg := "cannot update ReplacementsCreated, field is immutable once set"
  const TimestampImmutableMsg := "cannot update CompletionTimestamp, field is immutable once set"
  const CreatedReasonMsg := "if ReplacementsCreatedError is set, ReplacementsCreatedReason must also be set"
  const InProgressReasonMsg := "if ReplacementsInProgressError is set, ReplacementsInProgressReason must also be set"
  const UpdateErrorPrefix := "error updating status: "

  /** The in-progress reason that turns the in-progress condition False. */
  const CompletedReason := "ReplacementsCompleted"
}
