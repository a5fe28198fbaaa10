/** The facade over several named rate limiters: it builds one limiter per
    configured bucket, fans a request out to the requested buckets, replaces
    failed calls by sentinels and reduces the results to a limit outcome. */
module RateLimit {
  import opened LimiterTypes
  import opened Outcomes
  import opened FanOut

  /** The facade's options; `failOnError` may be left undefined. */
  datatype Options = Options(failOnError: Option<bool>)

  class RateLimiters {
    /** The registry: one limiter per configured bucket. */
    var instances: map<Bucket, Limiter>
    const opts: Option<Options>

    /** Whether a failed `get` denies (true) or lets through (false, the
        default when the options or the flag are left undefined). */
    predicate FailOnError(): (f: bool)
      ensures opts.None? ==> !f
      ensures opts.Some? && opts.value.failOnError.None? ==> !f
      ensures f <==> opts == Some(Options(Some(true)))
    {
      opts.Some? && opts.value.failOnError == Some(true)
    }

    /** Builds one limiter per entry of the configuration record, all on the
        same client; nothing in the configuration is checked. */
    constructor (client: Client, configs: seq<(Bucket, LimiterOptions)>, opts: Option<Options>)
      requires DistinctBuckets(configs)
      ensures this.opts == opts
      ensures instances.Keys == set i | 0 <= i < |configs| :: configs[i].0
      ensures forall i :: 0 <= i < |configs| ==>
        instances[configs[i].0] == Instantiate(client, configs[i].1)
    {
      this.opts := opts;
      instances := map[];
      new;
      var i := 0;
      while i < |configs|
        invariant 0 <= i <= |configs|
        invariant instances.Keys == set k | 0 <= k < i :: configs[k].0
        invariant forall k :: 0 <= k < i ==> instances[configs[k].0] == Instantiate(client, configs[k].1)
      {
        instances := instances[configs[i].0 := Instantiate(client, configs[i].1)];
        i := i + 1;
      }
    }

    /** Reads the state of every requested bucket without consuming. A
        rejected read is logged and replaced by FAIL or PASS; this call never
        throws, and its record has one entry per requested bucket. */
    method GetRemainingPoints(ids: Request, get: GetBackend)
      returns (points: ResultMap, ghost logged: seq<LogEntry>)
      requires DistinctBuckets(ids) && Configured(instances, ids)
      ensures Buckets(points) == Buckets(ids)
      ensures forall i :: 0 <= i < |ids| ==>
        points[i].1 == SettleGet(get(ids[i].0, instances[ids[i].0], ids[i].1), FailOnError())
      ensures points == Fetch(ids, GetCalls(instances, ids, get), FailOnError())
      ensures logged == LogEntries(Rejections(GetCalls(instances, ids, get)), GET_FAILED)
    {
      ghost var calls := GetCalls(instances, ids, get);
      points := [];
      logged := [];
      for i := 0 to |ids|
        invariant points == Fetch(ids[..i], calls[..i], FailOnError())
        invariant logged == LogEntries(Rejections(calls[..i]), GET_FAILED)
      {
        var key := ids[i].0;
        var outcome := get(key, instances[key], ids[i].1);
        assert outcome == calls[i];
        RejectionsStep(calls, i);
        if outcome.GetRejected? {
          LogEntriesSnoc(Rejections(calls[..i]), outcome.error, GET_FAILED);
          logged := logged + [LogEntry(outcome.error, GET_FAILED)];
        }
        FetchStep(ids, calls, FailOnError(), i);
        points := points + [(key, SettleGet(outcome, FailOnError()))];
      }
      assert ids[..|ids|] == ids && calls[..|ids|] == calls;
      FetchEntries(instances, ids, get, FailOnError());
    }

    /** Consumes `points` from every requested bucket. A backend exception is
        logged, collected and replaced by FAIL (whatever `failOnError` says);
        a rejection carrying a state is that bucket's result. When at least one
        exception was collected the call throws them all and the record is
        dropped; otherwise it returns one entry per requested bucket. Each
        requested bucket is consumed from once, on its own limiter. */
    method Consume(ids: Request, consume: ConsumeBackend, points: int := 1)
      returns (reply: Completion<ResultMap>, ghost logged: seq<LogEntry>, ghost made: seq<ConsumeCall>)
      requires DistinctBuckets(ids) && Configured(instances, ids)
      ensures reply == ConsumeReply(ids, ConsumeCalls(instances, ids, points, consume))
      ensures reply.Thrown? <==>
        exists i :: 0 <= i < |ids| && consume(ids[i].0, instances[ids[i].0], ids[i].1, points).ConsumeFailed?
      ensures reply.Thrown? ==>
        reply.error == ConsumeError(CONSUME_FAILED, Failures(ConsumeCalls(instances, ids, points, consume)))
      ensures reply.Resolved? ==> Buckets(reply.value) == Buckets(ids)
      ensures logged == LogEntries(Failures(ConsumeCalls(instances, ids, points, consume)), CONSUME_FAILED)
      ensures made == ConsumeRequests(instances, ids, points)
    {
      ghost var calls := ConsumeCalls(instances, ids, points, consume);
      ghost var requests := ConsumeRequests(instances, ids, points);
      var errors: Option<seq<Error>> := None;
      var results: ResultMap := [];
      logged := [];
      made := [];
      for i := 0 to |ids|
        invariant results == Settle(ids[..i], calls[..i])
        invariant made == requests[..i]
        invariant errors == if Failures(calls[..i]) == [] then None else Some(Failures(calls[..i]))
        invariant logged == LogEntries(Failures(calls[..i]), CONSUME_FAILED)
      {
        var key := ids[i].0;
        var outcome := consume(key, instances[key], ids[i].1, points);
        made := made + [(key, instances[key], ids[i].1, points)];
        assert requests[..i + 1] == requests[..i] + [requests[i]];
        assert outcome == calls[i];
        FailuresStep(calls, i);
        if outcome.ConsumeFailed? {
          LogEntriesSnoc(Failures(calls[..i]), outcome.error, CONSUME_FAILED);
          logged := logged + [LogEntry(outcome.error, CONSUME_FAILED)];
          errors := Some((if errors.Some? then errors.value else []) + [outcome.error]);
        }
        SettleStep(ids, calls, i);
        results := results + [(key, Some(SettleConsume(outcome)))];
      }
      assert ids[..|ids|] == ids && calls[..|ids|] == calls && requests[..|ids|] == requests;
      if errors.Some? {
        reply := Thrown(ConsumeError(CONSUME_FAILED, errors.value));
      } else {
        reply := Resolved(results);
      }
      ConsumeContract(instances, ids, points, consume);
    }

    /** Consumes, then reduces the record to a limit outcome; a thrown
        consume error propagates unchanged. */
    method ConsumeAndCheckLimit(ids: Request, consume: ConsumeBackend, points: int := 1)
      returns (reply: Completion<LimitOutcome>, ghost logged: seq<LogEntry>, ghost made: seq<ConsumeCall>)
      requires DistinctBuckets(ids) && Configured(instances, ids)
      ensures reply == match ConsumeReply(ids, ConsumeCalls(instances, ids, points, consume))
        case Resolved(results) => Resolved(OutcomeOf(results))
        case Thrown(error) => Thrown(error)
      ensures logged == LogEntries(Failures(ConsumeCalls(instances, ids, points, consume)), CONSUME_FAILED)
      ensures made == ConsumeRequests(instances, ids, points)
    {
      var consumed;
      consumed, logged, made := Consume(ids, consume, points);
      match consumed {
        case Resolved(results) =>
          var outcome := GetLimitOutcome(results);
          reply := Resolved(outcome);
        case Thrown(error) =>
          reply := Thrown(error);
      }
    }

    /** Reads every requested bucket and reduces the record to a limit outcome. */
    method IsLimited(ids: Request, get: GetBackend)
      returns (outcome: LimitOutcome, ghost logged: seq<LogEntry>)
      requires DistinctBuckets(ids) && Configured(instances, ids)
      ensures outcome == OutcomeOf(Fetch(ids, GetCalls(instances, ids, get), FailOnError()))
      ensures logged == LogEntries(Rejections(GetCalls(instances, ids, get)), GET_FAILED)
    {
      var results;
      results, logged := GetRemainingPoints(ids, get);
      outcome := GetLimitOutcome(results);
    }

    /** Collects, in record order, the buckets whose state is used up; the
        list stays undefined when there is none. */
    static method GetLimitOutcome(results: ResultMap) returns (outcome: LimitOutcome)
      ensures outcome == OutcomeOf(results)
      ensures outcome.isLimited <==> exists i :: 0 <= i < |results| && IsCause(results[i].1)
    {
      var causes: Option<seq<Bucket>> := None;
      var i := 0;
      while i < |results|
        invariant 0 <= i <= |results|
        invariant causes == if Causes(results[..i]) == [] then None else Some(Causes(results[..i]))
      {
        assert results[..i + 1] == results[..i] + [results[i]];
        CausesSnoc(results[..i], results[i]);
        var key := results[i].0;
        var remaining := results[i].1;
        if remaining.Some? && remaining.value.remainingPoints <= 0 {
          causes := Some((if causes.Some? then causes.value else []) + [key]);
        }
        i := i + 1;
      }
      assert results[..i] == results;
      outcome := LimitOutcome(causes.Some?, causes);
      LimitedIff(results);
    }
  }

  /** One bucket named "default": a key never consumed reads as null and is
      not limited; a consume that leaves no points makes "default" the one
      cause. */
  lemma SingleBucketScenario(key: Key, used: State)
    requires used.remainingPoints == 0
    ensures Fetch([("default", key)], [Fetched(None)], false) == [("default", None)]
    ensures OutcomeOf(Fetch([("default", key)], [Fetched(None)], false)) == LimitOutcome(false, None)
    ensures ConsumeReply([("default", key)], [Consumed(used)]) == Resolved([("default", Some(used))])
    ensures OutcomeOf([("default", Some(used))]) == LimitOutcome(true, Some(["default"]))
  {
    var limited: ResultMap := [("default", Some(used))];
    assert limited[..0] == [];
    assert Causes(limited) == ["default"];
    FailuresSnoc([], Consumed(used));
    assert [] + [Consumed(used)] == [Consumed(used)];
    assert Settle([("default", key)], [Consumed(used)]) == limited;
  }

  /** On one bucket, a consume whose backend throws makes the whole call
      throw, carrying that one error, even though the facade fails open. */
  lemma SingleBucketFailure(bucket: Bucket, key: Key, e: Error)
    ensures ConsumeReply([(bucket, key)], [ConsumeFailed(e)]) ==
      Thrown(ConsumeError(CONSUME_FAILED, [e]))
  {
    FailuresSnoc([], ConsumeFailed(e));
    assert [] + [ConsumeFailed(e)] == [ConsumeFailed(e)];
  }
}
