/** Status conditions of a Kubernetes object and the two helpers the
    controller uses on them, `meta.FindStatusCondition` and
    `meta.SetStatusCondition`: a list holding at most one entry per type,
    where a write replaces the entry of its type in place. */
module Conditions {
  import opened Wrappers

  datatype ConditionStatus = ConditionTrue | ConditionFalse | ConditionUnknown

  /** One entry of `Status.Conditions`; the transition time is an abstract
      clock reading. */
  datatype Condition = Condition(
    condType: string,
    status: ConditionStatus,
    reason: string,
    message: string,
    lastTransitionTime: nat)

  /** No two entries share a type. */
  predicate UniqueTypes(conds: seq<Condition>) {
    forall i, j :: 0 <= i < j < |conds| ==> conds[i].condType != conds[j].condType
  }

  /** `meta.FindStatusCondition`: an entry of type `t` if there is one
      (the first, as `FindStatusConditionFirst` shows). */
  function FindStatusCondition(conds: seq<Condition>, t: string): (r: Option<Condition>)
    ensures r.None? <==> forall i :: 0 <= i < |conds| ==> conds[i].condType != t
    ensures r.Some? ==> r.value in conds && r.value.condType == t
  {
    if conds == [] then None
    else if conds[0].condType == t then Some(conds[0])
    else FindStatusCondition(conds[1..], t)
  }

  /** The lookup returns the first entry of type `t`. */
  lemma {:induction false} FindStatusConditionFirst(conds: seq<Condition>, t: string, k: nat)
    requires k < |conds| && conds[k].condType == t
    requires forall j :: 0 <= j < k ==> conds[j].condType != t
    ensures FindStatusCondition(conds, t) == Some(conds[k])
  {
    if k > 0 {
      assert conds[0].condType != t;
      assert conds[1..][k - 1] == conds[k];
      FindStatusConditionFirst(conds[1..], t, k - 1);
    }
  }

  /** In a list without repeated types, the lookup finds the one entry of
      that type wherever it stands. */
  lemma {:induction false} FindStatusConditionUnique(conds: seq<Condition>, k: nat)
    requires UniqueTypes(conds) && k < |conds|
    ensures FindStatusCondition(conds, conds[k].condType) == Some(conds[k])
  {
    if k > 0 {
      assert conds[0].condType != conds[k].condType;
      assert conds[1..][k - 1] == conds[k];
      FindStatusConditionUnique(conds[1..], k - 1);
    }
  }

  /** The entry `existing` after `c` of the same type is written over it:
      status, reason and message come from `c`; the transition time moves to
      `c`'s only when the status changes. */
  function Overwrite(existing: Condition, c: Condition): Condition {
    existing.(
      status := c.status,
      reason := c.reason,
      message := c.message,
      lastTransitionTime :=
        if existing.status == c.status then existing.lastTransitionTime else c.lastTransitionTime)
  }

  /** `meta.SetStatusCondition`, with `c.lastTransitionTime` as the current
      time: the first entry of `c`'s type is overwritten where it stands, or
      `c` is appended when there is none, so the list grows only when the
      type was absent; every entry afterwards is either an old one or of
      `c`'s type. */
  function SetStatusCondition(conds: seq<Condition>, c: Condition): (r: seq<Condition>)
    ensures |r| == if FindStatusCondition(conds, c.condType).Some? then |conds| else |conds| + 1
    ensures forall x :: x in r ==> x in conds || x.condType == c.condType
  {
    if conds == [] then [c]
    else if conds[0].condType == c.condType then [Overwrite(conds[0], c)] + conds[1..]
    else [conds[0]] + SetStatusCondition(conds[1..], c)
  }

  /** An entry of another type keeps its position and value. */
  lemma {:induction false} SetStatusConditionKeepsPosition(conds: seq<Condition>, c: Condition, i: nat)
    requires i < |conds| && conds[i].condType != c.condType
    ensures i < |SetStatusCondition(conds, c)| && SetStatusCondition(conds, c)[i] == conds[i]
  {
    if i > 0 && conds[0].condType != c.condType {
      SetStatusConditionKeepsPosition(conds[1..], c, i - 1);
    }
  }

  /** After the write, the lookup of `c`'s type finds `c`'s status, reason
      and message. Its transition time is the old entry's when that entry
      already had `c`'s status, and `c`'s (the current time) when the status
      flips or the entry is new. */
  lemma {:induction false} SetStatusConditionFind(conds: seq<Condition>, c: Condition)
    ensures var before := FindStatusCondition(conds, c.condType);
      var after := FindStatusCondition(SetStatusCondition(conds, c), c.condType);
      after.Some? && after.value.condType == c.condType && after.value.status == c.status
      && after.value.reason == c.reason && after.value.message == c.message
      && after.value.lastTransitionTime ==
           (if before.Some? && before.value.status == c.status
            then before.value.lastTransitionTime else c.lastTransitionTime)
  {
    if conds != [] && conds[0].condType != c.condType {
      SetStatusConditionFind(conds[1..], c);
      assert SetStatusCondition(conds, c)[1..] == SetStatusCondition(conds[1..], c);
    }
  }

  /** The lookup of every other type gives what it gave before the write. */
  lemma {:induction false} SetStatusConditionKeepsOthers(conds: seq<Condition>, c: Condition, t: string)
    requires t != c.condType
    ensures FindStatusCondition(SetStatusCondition(conds, c), t) == FindStatusCondition(conds, t)
  {
    if conds == [] {
      assert SetStatusCondition(conds, c) == [c];
    } else if conds[0].condType != c.condType && conds[0].condType != t {
      SetStatusConditionKeepsOthers(conds[1..], c, t);
      assert SetStatusCondition(conds, c)[1..] == SetStatusCondition(conds[1..], c);
    } else if conds[0].condType == c.condType {
      assert SetStatusCondition(conds, c)[1..] == conds[1..];
    }
  }

  /** The write keeps the list free of repeated types. */
  lemma {:induction false} SetStatusConditionKeepsUnique(conds: seq<Condition>, c: Condition)
    requires UniqueTypes(conds)
    ensures UniqueTypes(SetStatusCondition(conds, c))
  {
    var r := SetStatusCondition(conds, c);
    if conds == [] {
    } else if conds[0].condType == c.condType {
      assert r == [Overwrite(conds[0], c)] + conds[1..];
    } else {
      var rest := SetStatusCondition(conds[1..], c);
      SetStatusConditionKeepsUnique(conds[1..], c);
      assert r == [conds[0]] + rest;
      forall j | 0 < j < |r| ensures r[0].condType != r[j].condType {
        assert r[j] == rest[j - 1];
        assert rest[j - 1] in rest;
        if rest[j - 1] in conds[1..] {
          var m :| 0 <= m < |conds[1..]| && conds[1..][m] == rest[j - 1];
          assert conds[m + 1] == rest[j - 1];
        }
      }
    }
  }

  /** Writing the same condition again, at any later time, changes nothing. */
  lemma {:induction false} SetStatusConditionIdempotent(conds: seq<Condition>, c: Condition, later: nat)
    ensures var once := SetStatusCondition(conds, c);
      SetStatusCondition(once, c.(lastTransitionTime := later)) == once
  {
    if conds != [] && conds[0].condType != c.condType {
      SetStatusConditionIdempotent(conds[1..], c, later);
    }
  }
}
