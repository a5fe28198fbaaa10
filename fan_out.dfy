/** What the get and consume fan-outs compute: one backend call per requested
    bucket, each failure replaced by a sentinel, and for consume the errors
    collected into one thrown exception. The calls are taken in request order. */
module FanOut {
  import opened LimiterTypes
  import opened Outcomes
  import opened Positions

  /** Every requested bucket has a configured limiter. */
  predicate Configured(instances: map<Bucket, Limiter>, ids: Request) {
    forall i :: 0 <= i < |ids| ==> ids[i].0 in instances
  }

  /** The outcome of each `get` call, in request order. */
  function GetCalls(instances: map<Bucket, Limiter>, ids: Request, get: GetBackend): (calls: seq<GetOutcome>)
    requires Configured(instances, ids)
    ensures |calls| == |ids|
  {
    seq(|ids|, i requires 0 <= i < |ids| => get(ids[i].0, instances[ids[i].0], ids[i].1))
  }

  /** The outcome of each `consume` call, in request order. */
  function ConsumeCalls(instances: map<Bucket, Limiter>, ids: Request, points: int, consume: ConsumeBackend)
    : (calls: seq<ConsumeOutcome>)
    requires Configured(instances, ids)
    ensures |calls| == |ids|
  {
    seq(|ids|, i requires 0 <= i < |ids| => consume(ids[i].0, instances[ids[i].0], ids[i].1, points))
  }

  /** The `consume` calls made, in request order: one per requested bucket,
      on that bucket's own limiter, with the requested key and the points. */
  function ConsumeRequests(instances: map<Bucket, Limiter>, ids: Request, points: int)
    : (made: seq<ConsumeCall>)
    requires Configured(instances, ids)
    ensures |made| == |ids|
    ensures forall i :: 0 <= i < |ids| ==> made[i].0 == ids[i].0 && made[i].3 == points
  {
    seq(|ids|, i requires 0 <= i < |ids| => (ids[i].0, instances[ids[i].0], ids[i].1, points))
  }

  /** With distinct bucket names, each requested bucket is consumed from
      exactly once: call i is made on bucket i's limiter with key i and the
      points, and no two calls share a bucket. */
  lemma ConsumedOncePerBucket(instances: map<Bucket, Limiter>, ids: Request, points: int)
    requires DistinctBuckets(ids) && Configured(instances, ids)
    ensures forall i :: 0 <= i < |ids| ==>
      ConsumeRequests(instances, ids, points)[i] == (ids[i].0, instances[ids[i].0], ids[i].1, points)
    ensures forall k, l :: 0 <= k < l < |ids| ==>
      ConsumeRequests(instances, ids, points)[k].0 != ConsumeRequests(instances, ids, points)[l].0
  {
  }

  /** The error handler of `getRemainingPoints`: a rejected call becomes FAIL
      when the facade fails closed, PASS otherwise. */
  function SettleGet(outcome: GetOutcome, failOnError: bool): (r: Option<State>)
    ensures outcome.Fetched? ==> r == outcome.stored
    ensures outcome.GetRejected? ==> r.Some? && (IsCause(r) <==> failOnError)
  {
    match outcome
    case Fetched(stored) => stored
    case GetRejected(_) => Some(if failOnError then FAIL else PASS)
  }

  /** The error handler of `consume`: an exception becomes FAIL, whatever the
      fail-on-error option says; a rejection with a state passes that state on. */
  function SettleConsume(outcome: ConsumeOutcome): (r: State)
    ensures !outcome.ConsumeFailed? ==> r == outcome.state
    ensures outcome.ConsumeFailed? ==> r.remainingPoints < 0 && IsCause(Some(r))
  {
    match outcome
    case Consumed(state) => state
    case Rejected(state) => state
    case ConsumeFailed(_) => FAIL
  }

  /** The record `getRemainingPoints` returns. */
  function Fetch(ids: Request, calls: seq<GetOutcome>, failOnError: bool): (results: ResultMap)
    requires |calls| == |ids|
    ensures Buckets(results) == Buckets(ids)
  {
    seq(|ids|, i requires 0 <= i < |ids| => (ids[i].0, SettleGet(calls[i], failOnError)))
  }

  /** The record `consume` builds before it decides whether to throw. */
  function Settle(ids: Request, calls: seq<ConsumeOutcome>): (results: ResultMap)
    requires |calls| == |ids|
    ensures Buckets(results) == Buckets(ids)
    ensures forall i :: 0 <= i < |results| ==> results[i].1.Some?
  {
    seq(|ids|, i requires 0 <= i < |ids| => (ids[i].0, Some(SettleConsume(calls[i]))))
  }

  /** The errors of the rejected `get` calls, in request order. */
  function Rejections(calls: seq<GetOutcome>): (errors: seq<Error>)
    ensures |errors| <= |calls|
    decreases |calls|
  {
    if calls == [] then []
    else
      var last := calls[|calls| - 1];
      Rejections(calls[..|calls| - 1]) + (if last.GetRejected? then [last.error] else [])
  }

  /** The exceptions of the failed `consume` calls, in request order. */
  function Failures(calls: seq<ConsumeOutcome>): (errors: seq<Error>)
    ensures |errors| <= |calls|
    decreases |calls|
  {
    if calls == [] then []
    else
      var last := calls[|calls| - 1];
      Failures(calls[..|calls| - 1]) + (if last.ConsumeFailed? then [last.error] else [])
  }

  /** The logger calls made for a list of errors, all with one message. */
  function LogEntries(errors: seq<Error>, message: string): (log: seq<LogEntry>)
    ensures |log| == |errors|
    ensures forall k :: 0 <= k < |log| ==> log[k].error == errors[k] && log[k].message == message
  {
    seq(|errors|, k requires 0 <= k < |errors| => LogEntry(errors[k], message))
  }

  /** How `consume` settles: it throws when at least one call failed with an
      exception, and returns its record otherwise. */
  function ConsumeReply(ids: Request, calls: seq<ConsumeOutcome>): (reply: Completion<ResultMap>)
    requires |calls| == |ids|
    ensures reply.Thrown? <==> Failures(calls) != []
    ensures reply.Thrown? ==> reply.error.message == CONSUME_FAILED && reply.error.cause == Failures(calls)
    ensures reply.Resolved? ==> reply.value == Settle(ids, calls)
  {
    var errors := Failures(calls);
    if errors == [] then Resolved(Settle(ids, calls))
    else Thrown(ConsumeError(CONSUME_FAILED, errors))
  }

  predicate IsFailed(outcome: ConsumeOutcome) {
    outcome.ConsumeFailed?
  }

  predicate IsRejected(outcome: GetOutcome) {
    outcome.GetRejected?
  }

  /** Collected exception k is the one of the k-th failed call. */
  lemma {:induction false} FailuresAt(calls: seq<ConsumeOutcome>)
    ensures |Failures(calls)| == |Where(calls, IsFailed)|
    ensures forall k :: 0 <= k < |Failures(calls)| ==>
      calls[Where(calls, IsFailed)[k]] == ConsumeFailed(Failures(calls)[k])
    decreases |calls|
  {
    if calls != [] {
      var n := |calls| - 1;
      var init := calls[..n];
      FailuresAt(init);
      forall k | 0 <= k < |Where(init, IsFailed)|
        ensures Where(init, IsFailed)[k] < n
        ensures init[Where(init, IsFailed)[k]] == calls[Where(init, IsFailed)[k]]
      {
      }
    }
  }

  /** Logged rejection k is the one of the k-th rejected `get`. */
  lemma {:induction false} RejectionsAt(calls: seq<GetOutcome>)
    ensures |Rejections(calls)| == |Where(calls, IsRejected)|
    ensures forall k :: 0 <= k < |Rejections(calls)| ==>
      calls[Where(calls, IsRejected)[k]] == GetRejected(Rejections(calls)[k])
    decreases |calls|
  {
    if calls != [] {
      var n := |calls| - 1;
      var init := calls[..n];
      RejectionsAt(init);
      forall k | 0 <= k < |Where(init, IsRejected)|
        ensures Where(init, IsRejected)[k] < n
        ensures init[Where(init, IsRejected)[k]] == calls[Where(init, IsRejected)[k]]
      {
      }
    }
  }

  /** The exceptions are exactly those of the failed calls: one per failed
      call, in request order. */
  lemma FailurePositions(calls: seq<ConsumeOutcome>) returns (idx: seq<nat>)
    ensures |idx| == |Failures(calls)|
    ensures Increasing(idx)
    ensures forall k :: 0 <= k < |idx| ==>
      idx[k] < |calls| && calls[idx[k]] == ConsumeFailed(Failures(calls)[k])
    ensures forall i :: 0 <= i < |calls| && calls[i].ConsumeFailed? ==> i in idx
  {
    idx := Where(calls, IsFailed);
    WhereIncreasing(calls, IsFailed);
    FailuresAt(calls);
    forall i | 0 <= i < |calls| && calls[i].ConsumeFailed?
      ensures i in idx
    {
      WhereComplete(calls, IsFailed, i);
    }
  }

  /** The rejected `get` calls are logged one each, in request order. */
  lemma RejectionPositions(calls: seq<GetOutcome>) returns (idx: seq<nat>)
    ensures |idx| == |Rejections(calls)|
    ensures Increasing(idx)
    ensures forall k :: 0 <= k < |idx| ==>
      idx[k] < |calls| && calls[idx[k]] == GetRejected(Rejections(calls)[k])
    ensures forall i :: 0 <= i < |calls| && calls[i].GetRejected? ==> i in idx
  {
    idx := Where(calls, IsRejected);
    WhereIncreasing(calls, IsRejected);
    RejectionsAt(calls);
    forall i | 0 <= i < |calls| && calls[i].GetRejected?
      ensures i in idx
    {
      WhereComplete(calls, IsRejected, i);
    }
  }

  /** `consume` throws exactly when some call failed with an exception, and
      the thrown error carries exactly the collected exceptions. */
  lemma ConsumeThrowsIff(ids: Request, calls: seq<ConsumeOutcome>)
    requires |calls| == |ids|
    ensures ConsumeReply(ids, calls).Thrown? <==>
      exists i :: 0 <= i < |calls| && calls[i].ConsumeFailed?
    ensures ConsumeReply(ids, calls).Thrown? ==>
      ConsumeReply(ids, calls).error == ConsumeError(CONSUME_FAILED, Failures(calls))
  {
    FailuresEmptyIff(calls);
  }

  /** No exception is collected exactly when no call failed with one. */
  lemma FailuresEmptyIff(calls: seq<ConsumeOutcome>)
    ensures Failures(calls) != [] <==> exists i :: 0 <= i < |calls| && calls[i].ConsumeFailed?
  {
    var idx := FailurePositions(calls);
    if i :| 0 <= i < |calls| && calls[i].ConsumeFailed? {
      assert i in idx;
    }
    if Failures(calls) != [] {
      assert calls[idx[0]].ConsumeFailed?;
    }
  }

  /** When `consume` returns, every bucket of the request has exactly one
      entry and it is the state the backend settled with: the FAIL sentinel
      never reaches a caller. */
  lemma ConsumeResolvedIsBackendState(ids: Request, calls: seq<ConsumeOutcome>)
    requires |calls| == |ids|
    requires ConsumeReply(ids, calls).Resolved?
    ensures Buckets(ConsumeReply(ids, calls).value) == Buckets(ids)
    ensures forall i :: 0 <= i < |ids| ==>
      !calls[i].ConsumeFailed? && ConsumeReply(ids, calls).value[i].1 == Some(calls[i].state)
  {
    ConsumeThrowsIff(ids, calls);
  }

  /** Settling one more call: an exception is appended to the collected
      ones, while a settled or state-carrying rejection adds nothing. */
  lemma FailuresSnoc(calls: seq<ConsumeOutcome>, outcome: ConsumeOutcome)
    ensures Failures(calls + [outcome]) ==
      if outcome.ConsumeFailed? then Failures(calls) + [outcome.error] else Failures(calls)
  {
    assert (calls + [outcome])[..|calls|] == calls;
  }

  /** Settling one more `get`: a rejection is appended to the logged ones. */
  lemma RejectionsSnoc(calls: seq<GetOutcome>, outcome: GetOutcome)
    ensures Rejections(calls + [outcome]) ==
      if outcome.GetRejected? then Rejections(calls) + [outcome.error] else Rejections(calls)
  {
    assert (calls + [outcome])[..|calls|] == calls;
  }

  /** The collected exceptions after one more call of the request. */
  lemma FailuresStep(calls: seq<ConsumeOutcome>, i: nat)
    requires i < |calls|
    ensures Failures(calls[..i + 1]) ==
      if calls[i].ConsumeFailed? then Failures(calls[..i]) + [calls[i].error] else Failures(calls[..i])
  {
    assert calls[..i + 1] == calls[..i] + [calls[i]];
    FailuresSnoc(calls[..i], calls[i]);
  }

  /** The logged rejections after one more call of the request. */
  lemma RejectionsStep(calls: seq<GetOutcome>, i: nat)
    requires i < |calls|
    ensures Rejections(calls[..i + 1]) ==
      if calls[i].GetRejected? then Rejections(calls[..i]) + [calls[i].error] else Rejections(calls[..i])
  {
    assert calls[..i + 1] == calls[..i] + [calls[i]];
    RejectionsSnoc(calls[..i], calls[i]);
  }

  /** The record of a read after one more call of the request. */
  lemma FetchStep(ids: Request, calls: seq<GetOutcome>, failOnError: bool, i: nat)
    requires |calls| == |ids| && i < |ids|
    ensures Fetch(ids[..i + 1], calls[..i + 1], failOnError) ==
      Fetch(ids[..i], calls[..i], failOnError) + [(ids[i].0, SettleGet(calls[i], failOnError))]
  {
  }

  /** The record of a consume after one more call of the request. */
  lemma SettleStep(ids: Request, calls: seq<ConsumeOutcome>, i: nat)
    requires |calls| == |ids| && i < |ids|
    ensures Settle(ids[..i + 1], calls[..i + 1]) ==
      Settle(ids[..i], calls[..i]) + [(ids[i].0, Some(SettleConsume(calls[i])))]
  {
  }

  /** Logging one more error appends one entry to the log. */
  lemma LogEntriesSnoc(errors: seq<Error>, e: Error, message: string)
    ensures LogEntries(errors + [e], message) == LogEntries(errors, message) + [LogEntry(e, message)]
  {
  }

  /** Entry i of a read's record is bucket i's `get` outcome after substitution. */
  lemma FetchEntries(instances: map<Bucket, Limiter>, ids: Request, get: GetBackend, failOnError: bool)
    requires Configured(instances, ids)
    ensures forall i :: 0 <= i < |ids| ==>
      Fetch(ids, GetCalls(instances, ids, get), failOnError)[i].1 ==
      SettleGet(get(ids[i].0, instances[ids[i].0], ids[i].1), failOnError)
  {
  }

  /** Call i of a consume fan-out is made on bucket i's limiter with key i. */
  lemma ConsumeCallEntries(instances: map<Bucket, Limiter>, ids: Request, points: int, consume: ConsumeBackend)
    requires Configured(instances, ids)
    ensures forall i :: 0 <= i < |ids| ==>
      ConsumeCalls(instances, ids, points, consume)[i] == consume(ids[i].0, instances[ids[i].0], ids[i].1, points)
  {
  }

  /** What a caller of `consume` can rely on, stated over the backend itself:
      it throws exactly when some bucket's call threw, with all the collected
      exceptions; otherwise its record has the request's keys in order. */
  lemma ConsumeContract(instances: map<Bucket, Limiter>, ids: Request, points: int, consume: ConsumeBackend)
    requires Configured(instances, ids)
    ensures var reply := ConsumeReply(ids, ConsumeCalls(instances, ids, points, consume));
      && (reply.Thrown? <==>
          exists i :: 0 <= i < |ids| && consume(ids[i].0, instances[ids[i].0], ids[i].1, points).ConsumeFailed?)
      && (reply.Thrown? ==>
          reply.error == ConsumeError(CONSUME_FAILED, Failures(ConsumeCalls(instances, ids, points, consume))))
      && (reply.Resolved? ==> Buckets(reply.value) == Buckets(ids))
  {
    var calls := ConsumeCalls(instances, ids, points, consume);
    ConsumeThrowsIff(ids, calls);
    ConsumeCallEntries(instances, ids, points, consume);
  }

  /** A rejected `get` fails open by default and closed on request: the
      substituted entry limits exactly when the facade fails on error. The
      FAIL substituted for a failed `consume` would limit, but a record
      holding it is never returned (`ConsumeResolvedIsBackendState`). */
  lemma SubstitutionDecides(e: Error, failOnError: bool)
    ensures IsCause(SettleGet(GetRejected(e), failOnError)) <==> failOnError
    ensures IsCause(Some(SettleConsume(ConsumeFailed(e))))
  {
  }

  /** The buckets `isLimited` names: those whose stored state is used up, and,
      when the facade fails closed, those whose `get` was rejected. */
  lemma IsLimitedCauses(ids: Request, calls: seq<GetOutcome>, failOnError: bool, b: Bucket)
    requires |calls| == |ids|
    ensures b in Causes(Fetch(ids, calls, failOnError)) <==>
      exists i :: 0 <= i < |ids| && ids[i].0 == b &&
        ((calls[i].Fetched? && calls[i].stored.Some? && calls[i].stored.value.remainingPoints <= 0)
         || (calls[i].GetRejected? && failOnError))
  {
    var results := Fetch(ids, calls, failOnError);
    CauseMembership(results, b);
    assert forall i :: 0 <= i < |ids| ==> results[i] == (ids[i].0, SettleGet(calls[i], failOnError));
  }

  /** For keys that were never consumed every `get` settles with null, and
      `isLimited` answers "not limited" with no causes. */
  lemma NeverConsumedNotLimited(ids: Request, calls: seq<GetOutcome>, failOnError: bool)
    requires |calls| == |ids|
    requires forall i :: 0 <= i < |calls| ==> calls[i] == Fetched(None)
    ensures OutcomeOf(Fetch(ids, calls, failOnError)) == LimitOutcome(false, None)
  {
    NothingUsedUpNotLimited(Fetch(ids, calls, failOnError));
  }

  /** With the default fail-open policy, a failing `get` cannot limit:
      `isLimited` is decided by the calls that did settle. */
  lemma FailOpenIgnoresRejections(ids: Request, calls: seq<GetOutcome>)
    requires |calls| == |ids|
    ensures OutcomeOf(Fetch(ids, calls, false)).isLimited <==>
      exists i :: 0 <= i < |calls| && calls[i].Fetched? && IsCause(calls[i].stored)
  {
    var results := Fetch(ids, calls, false);
    LimitedIff(results);
    assert forall i :: 0 <= i < |ids| ==> results[i].1 == SettleGet(calls[i], false);
  }
}
