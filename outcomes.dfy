/** The reduction of a result record to a limit outcome (`getLimitOutcome`),
    as specification functions and the facts the facade relies on. */
module Outcomes {
  import opened LimiterTypes
  import opened Positions

  /** A bucket limits when it has a state whose remaining points are used up.
      A null result (a key never consumed) never limits; the FAIL sentinel
      always does and the PASS sentinel never does. */
  predicate IsCause(result: Option<State>): (c: bool)
    ensures result.None? ==> !c
    ensures result == Some(FAIL) ==> c
    ensures result == Some(PASS) ==> !c
  {
    result.Some? && result.value.remainingPoints <= 0
  }

  /** The causing buckets, in record order. */
  function Causes(results: ResultMap): (causes: seq<Bucket>)
    ensures |causes| <= |results|
    decreases |results|
  {
    if results == [] then []
    else
      var last := results[|results| - 1];
      Causes(results[..|results| - 1]) + (if IsCause(last.1) then [last.0] else [])
  }

  /** The limit outcome of a result record. */
  function OutcomeOf(results: ResultMap): (o: LimitOutcome)
    ensures o.isLimited <==> o.causes.Some?
    ensures o.causes.Some? ==> o.causes.value != [] && o.causes.value == Causes(results)
    ensures o.causes.None? ==> Causes(results) == []
  {
    var causes := Causes(results);
    if causes == [] then LimitOutcome(false, None) else LimitOutcome(true, Some(causes))
  }

  /** One more entry adds its bucket to the causes exactly when it limits. */
  lemma CausesSnoc(results: ResultMap, entry: (Bucket, Option<State>))
    ensures Causes(results + [entry]) ==
      if IsCause(entry.1) then Causes(results) + [entry.0] else Causes(results)
  {
    assert (results + [entry])[..|results|] == results;
  }

  /** An entry of a record limits. */
  predicate LimitingEntry(entry: (Bucket, Option<State>)) {
    IsCause(entry.1)
  }

  /** Cause k is the bucket at the k-th limiting position of the record. */
  lemma {:induction false} CausesAt(results: ResultMap)
    ensures |Causes(results)| == |Where(results, LimitingEntry)|
    ensures forall k :: 0 <= k < |Causes(results)| ==>
      Causes(results)[k] == results[Where(results, LimitingEntry)[k]].0
    decreases |results|
  {
    if results != [] {
      var n := |results| - 1;
      var init := results[..n];
      CausesAt(init);
      forall k | 0 <= k < |Where(init, LimitingEntry)|
        ensures Where(init, LimitingEntry)[k] < n
        ensures init[Where(init, LimitingEntry)[k]] == results[Where(init, LimitingEntry)[k]]
      {
      }
    }
  }

  /** The causes are exactly the positions of the record whose result limits,
      listed once each, in record order. */
  lemma CausePositions(results: ResultMap) returns (idx: seq<nat>)
    ensures |idx| == |Causes(results)|
    ensures Increasing(idx)
    ensures forall k :: 0 <= k < |idx| ==>
      idx[k] < |results| && IsCause(results[idx[k]].1) && Causes(results)[k] == results[idx[k]].0
    ensures forall i :: 0 <= i < |results| && IsCause(results[i].1) ==> i in idx
  {
    idx := Where(results, LimitingEntry);
    WhereIncreasing(results, LimitingEntry);
    CausesAt(results);
    forall i | 0 <= i < |results| && IsCause(results[i].1)
      ensures i in idx
    {
      WhereComplete(results, LimitingEntry, i);
    }
  }

  /** A bucket is a cause exactly when some entry for it limits. */
  lemma CauseMembership(results: ResultMap, b: Bucket)
    ensures b in Causes(results) <==>
      exists i :: 0 <= i < |results| && results[i].0 == b && IsCause(results[i].1)
  {
    var idx := CausePositions(results);
    if b in Causes(results) {
      var k :| 0 <= k < |Causes(results)| && Causes(results)[k] == b;
      assert results[idx[k]].0 == b;
    }
    if exists i :: 0 <= i < |results| && results[i].0 == b && IsCause(results[i].1) {
      var i :| 0 <= i < |results| && results[i].0 == b && IsCause(results[i].1);
      var k :| 0 <= k < |idx| && idx[k] == i;
      assert Causes(results)[k] == b;
    }
  }

  /** A record whose keys are distinct names each cause once. */
  lemma CausesDistinct(results: ResultMap)
    requires DistinctBuckets(results)
    ensures Distinct(Causes(results))
  {
    var idx := CausePositions(results);
    forall k, l | 0 <= k < l < |idx|
      ensures Causes(results)[k] != Causes(results)[l]
    {
      assert results[idx[k]].0 != results[idx[l]].0;
    }
  }

  /** The outcome is limited exactly when some entry limits. */
  lemma LimitedIff(results: ResultMap)
    ensures OutcomeOf(results).isLimited <==>
      exists i :: 0 <= i < |results| && IsCause(results[i].1)
  {
    var idx := CausePositions(results);
    if exists i :: 0 <= i < |results| && IsCause(results[i].1) {
      var i :| 0 <= i < |results| && IsCause(results[i].1);
      assert i in idx;
    }
    if OutcomeOf(results).isLimited {
      assert results[idx[0]].0 == Causes(results)[0];
    }
  }

  /** Null results and positive remaining points never limit: a record
      without a used-up state gives an unlimited outcome with no causes. */
  lemma {:induction false} NothingUsedUpNotLimited(results: ResultMap)
    requires forall i :: 0 <= i < |results| ==>
      results[i].1 == None || results[i].1.value.remainingPoints > 0
    ensures OutcomeOf(results) == LimitOutcome(false, None)
    decreases |results|
  {
    if results != [] {
      var n := |results| - 1;
      assert forall i :: 0 <= i < n ==> results[..n][i] == results[i];
      NothingUsedUpNotLimited(results[..n]);
    }
  }
}
