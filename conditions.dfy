/**
 * The condition list of a NodeRollout status: lookup by type, removal of a
 * type, and the update rule of setNodeRolloutCondition
 * (pkg/controller/noderollout/status/status.go).
 */
module Conditions {
  import opened Types

  /** At most one condition per type: the invariant the update rule keeps. */
  predicate AtMostOnePerType(conds: seq<NodeRolloutCondition>)
  {
    forall i, j :: 0 <= i < j < |conds| ==> conds[i].condType != conds[j].condType
  }

  /** The first condition of type `t`, if any. */
  function FindCondition(conds: seq<NodeRolloutCondition>, t: ConditionType): (r: Option<NodeRolloutCondition>)
    ensures r.Some? ==> r.value in conds && r.value.condType == t
    ensures r.None? <==> forall c :: c in conds ==> c.condType != t
  {
    if conds == [] then None
    else if conds[0].condType == t then Some(conds[0])
    else FindCondition(conds[1..], t)
  }

  /**
   * The lookup returns the first condition of type `t`: a found condition sits
   * at an index with no condition of that type before it, and the condition at
   * such an index is the one found.
   */
  lemma {:induction false} FindFirst(conds: seq<NodeRolloutCondition>, t: ConditionType)
    ensures FindCondition(conds, t).Some? ==>
      exists i :: 0 <= i < |conds| && conds[i] == FindCondition(conds, t).value
        && forall j :: 0 <= j < i ==> conds[j].condType != t
    ensures forall i ::
      (0 <= i < |conds| && conds[i].condType == t && forall j :: 0 <= j < i ==> conds[j].condType != t) ==>
        FindCondition(conds, t) == Some(conds[i])
    decreases |conds|
  {
    if conds != [] {
      var rest := conds[1..];
      FindFirst(rest, t);
      if conds[0].condType != t && FindCondition(rest, t).Some? {
        var k :| 0 <= k < |rest| && rest[k] == FindCondition(rest, t).value
          && forall j :: 0 <= j < k ==> rest[j].condType != t;
        forall j | 0 <= j < k + 1 ensures conds[j].condType != t {
          if j > 0 {
            assert conds[j] == rest[j - 1];
          }
        }
        assert conds[k + 1] == rest[k];
      }
      forall i | 0 <= i < |conds| && conds[i].condType == t
          && (forall j :: 0 <= j < i ==> conds[j].condType != t)
        ensures FindCondition(conds, t) == Some(conds[i])
      {
        if i > 0 {
          assert conds[0].condType != t;
          assert rest[i - 1] == conds[i];
          forall j | 0 <= j < i - 1 ensures rest[j].condType != t {
            assert rest[j] == conds[j + 1];
          }
        }
      }
    }
  }

  /** The conditions whose type is not `t`, in their original order. */
  function WithoutType(conds: seq<NodeRolloutCondition>, t: ConditionType): (r: seq<NodeRolloutCondition>)
    ensures forall i :: 0 <= i < |r| ==> r[i].condType != t
    ensures |r| <= |conds|
    decreases |conds|
  {
    if conds == [] then []
    else
      var init := conds[..|conds| - 1];
      var last := conds[|conds| - 1];
      assert conds == init + [last];
      WithoutType(init, t) + (if last.condType == t then [] else [last])
  }

  /** newNodeRolloutCondition, with the clock reading passed in as `now`. */
  function NewNodeRolloutCondition(t: ConditionType, status: ConditionStatus, reason: string, message: string, now: Time): NodeRolloutCondition
  {
    NodeRolloutCondition(t, status, now, now, reason, message)
  }

  /**
   * The condition list after setNodeRolloutCondition: untouched when a
   * condition of the same type already has the same status and reason;
   * otherwise every condition of that type is dropped and `c` goes last,
   * keeping the old transition time when the status did not change.
   */
  function SetCondition(conds: seq<NodeRolloutCondition>, c: NodeRolloutCondition): seq<NodeRolloutCondition>
  {
    var current := FindCondition(conds, c.condType);
    if current.Some? && current.value.status == c.status && current.value.reason == c.reason then
      conds
    else
      var c' := if current.Some? && current.value.status == c.status
                then c.(lastTransitionTime := current.value.lastTransitionTime)
                else c;
      WithoutType(conds, c.condType) + [c']
  }

  /** Dropping a type that is absent changes nothing. */
  lemma {:induction false} WithoutAbsentType(conds: seq<NodeRolloutCondition>, t: ConditionType)
    requires forall c :: c in conds ==> c.condType != t
    ensures WithoutType(conds, t) == conds
    decreases |conds|
  {
    if conds != [] {
      var init := conds[..|conds| - 1];
      var last := conds[|conds| - 1];
      WithoutAbsentType(init, t);
      assert WithoutType(conds, t) == WithoutType(init, t) + [last];
      assert conds == init + [last];
    }
  }

  /** A condition survives the filter exactly when it is of another type. */
  lemma {:induction false} WithoutTypeMembers(conds: seq<NodeRolloutCondition>, t: ConditionType)
    ensures forall c :: c in WithoutType(conds, t) <==> c in conds && c.condType != t
    decreases |conds|
  {
    if conds != [] {
      var init := conds[..|conds| - 1];
      var last := conds[|conds| - 1];
      WithoutTypeMembers(init, t);
      assert conds == init + [last];
      assert WithoutType(conds, t) == WithoutType(init, t) + (if last.condType == t then [] else [last]);
    }
  }

  /** Dropping a type leaves no condition of that type and preserves uniqueness. */
  lemma {:induction false} WithoutTypeUnique(conds: seq<NodeRolloutCondition>, t: ConditionType)
    requires AtMostOnePerType(conds)
    ensures AtMostOnePerType(WithoutType(conds, t))
    decreases |conds|
  {
    if conds != [] {
      var init := conds[..|conds| - 1];
      var last := conds[|conds| - 1];
      WithoutTypeUnique(init, t);
      WithoutTypeMembers(init, t);
      assert forall c :: c in init ==> c.condType != last.condType by {
        forall c | c in init ensures c.condType != last.condType {
          var i :| 0 <= i < |init| && init[i] == c;
          assert conds[i] == c;
        }
      }
    }
  }

  /** Re-applying a condition with the status and reason already recorded is a no-op. */
  lemma SetConditionSameStatusAndReason(conds: seq<NodeRolloutCondition>, c: NodeRolloutCondition)
    requires FindCondition(conds, c.condType).Some?
    requires FindCondition(conds, c.condType).value.status == c.status
    requires FindCondition(conds, c.condType).value.reason == c.reason
    ensures SetCondition(conds, c) == conds
  {
  }

  /**
   * Otherwise exactly one condition of the type remains, it is last, it carries
   * the new status, reason, message and update time, and its transition time
   * is the old one exactly when the status is unchanged.
   */
  lemma SetConditionChanged(conds: seq<NodeRolloutCondition>, c: NodeRolloutCondition)
    requires var cur := FindCondition(conds, c.condType);
      !(cur.Some? && cur.value.status == c.status && cur.value.reason == c.reason)
    ensures var r := SetCondition(conds, c);
      var cur := FindCondition(conds, c.condType);
      && |r| > 0
      && (forall i :: 0 <= i < |r| - 1 ==> r[i].condType != c.condType)
      && r[|r| - 1].condType == c.condType
      && r[|r| - 1].status == c.status
      && r[|r| - 1].reason == c.reason
      && r[|r| - 1].message == c.message
      && r[|r| - 1].lastUpdateTime == c.lastUpdateTime
      && r[|r| - 1].lastTransitionTime ==
           (if cur.Some? && cur.value.status == c.status then cur.value.lastTransitionTime else c.lastTransitionTime)
  {
  }

  /** Every condition of another type keeps its place relative to the others. */
  lemma SetConditionKeepsOthers(conds: seq<NodeRolloutCondition>, c: NodeRolloutCondition)
    ensures WithoutType(SetCondition(conds, c), c.condType) == WithoutType(conds, c.condType)
  {
    var cur := FindCondition(conds, c.condType);
    if !(cur.Some? && cur.value.status == c.status && cur.value.reason == c.reason) {
      var t := c.condType;
      var r := SetCondition(conds, c);
      var w := WithoutType(conds, t);
      assert r[..|r| - 1] == w && r[|r| - 1].condType == t;
      WithoutAbsentType(w, t);
    }
  }

  /** The update rule keeps at most one condition per type. */
  lemma SetConditionUnique(conds: seq<NodeRolloutCondition>, c: NodeRolloutCondition)
    requires AtMostOnePerType(conds)
    ensures AtMostOnePerType(SetCondition(conds, c))
  {
    var cur := FindCondition(conds, c.condType);
    if !(cur.Some? && cur.value.status == c.status && cur.value.reason == c.reason) {
      WithoutTypeUnique(conds, c.condType);
      SetConditionChanged(conds, c);
    }
  }

  /**
   * After the update, the lookup of the type gives the stored condition when it
   * already had the requested status and reason, and otherwise the new
   * condition, carrying the old transition time when only the reason changed.
   */
  lemma SetConditionLookup(conds: seq<NodeRolloutCondition>, c: NodeRolloutCondition)
    ensures var prev := FindCondition(conds, c.condType);
      FindCondition(SetCondition(conds, c), c.condType) ==
        if prev.Some? && prev.value.status == c.status && prev.value.reason == c.reason then prev
        else if prev.Some? && prev.value.status == c.status then Some(c.(lastTransitionTime := prev.value.lastTransitionTime))
        else Some(c)
  {
    var prev := FindCondition(conds, c.condType);
    if !(prev.Some? && prev.value.status == c.status && prev.value.reason == c.reason) {
      SetConditionChanged(conds, c);
      FindLast(SetCondition(conds, c), c.condType);
    }
  }

  /** The lookup returns the last element when that is the only one of its type. */
  lemma FindLast(r: seq<NodeRolloutCondition>, t: ConditionType)
    requires |r| > 0 && r[|r| - 1].condType == t
    requires forall i :: 0 <= i < |r| - 1 ==> r[i].condType != t
    ensures FindCondition(r, t) == Some(r[|r| - 1])
  {
  }

  /** Applying the same status and reason twice has the effect of applying it once. */
  lemma SetConditionTwice(conds: seq<NodeRolloutCondition>, c: NodeRolloutCondition, c2: NodeRolloutCondition)
    requires c2.condType == c.condType && c2.status == c.status && c2.reason == c.reason
    ensures SetCondition(SetCondition(conds, c), c2) == SetCondition(conds, c)
  {
  }

  /** getNodeRolloutCondition: a linear search for the first condition of a type. */
  method GetNodeRolloutCondition(status: NodeRolloutStatus, condType: ConditionType) returns (r: Option<NodeRolloutCondition>)
    ensures r == FindCondition(status.conditions, condType)
  {
    var conds := status.conditions;
    var i := 0;
    while i < |conds|
      invariant 0 <= i <= |conds|
      invariant FindCondition(conds, condType) == FindCondition(conds[i..], condType)
    {
      assert conds[i..][1..] == conds[i + 1..];
      if conds[i].condType == condType {
        return Some(conds[i]);
      }
      i := i + 1;
    }
    assert conds[i..] == [];
    r := None;
  }

  /** filterOutCondition: copies every condition not of the given type. */
  method FilterOutCondition(conditions: seq<NodeRolloutCondition>, condType: ConditionType) returns (newConditions: seq<NodeRolloutCondition>)
    ensures newConditions == WithoutType(conditions, condType)
  {
    newConditions := [];
    var i := 0;
    while i < |conditions|
      invariant 0 <= i <= |conditions|
      invariant newConditions == WithoutType(conditions[..i], condType)
    {
      assert conditions[..i + 1][..i] == conditions[..i];
      var c := conditions[i];
      if c.condType != condType {
        newConditions := newConditions + [c];
      }
      i := i + 1;
    }
    assert conditions[..i] == conditions;
  }
}
