# Multi-bucket rate-limiter facade

A Dafny model of `RateLimiters`, a facade over several named rate-limiter
buckets (`default`, `perUser`, `perIp`, ...). It covers these parts:

- **Registry.** The constructor builds one limiter per configured bucket. All limiters use the same client, either in-memory or a shared store.
- **Fan-out.** `getRemainingPoints` and `consume` call the backend once for every bucket in a request record.
- **Error substitution.** A failed call is replaced by one of two sentinel states:
  - `FAIL` has `remainingPoints` -1.
  - `PASS` has `remainingPoints` 1.
  - Otherwise the two are the same.
- **Consume errors.** `consume` collects every backend exception. If it collected at least one, it throws them all as the cause of a single error.
- **Outcome reduction.** `getLimitOutcome` turns a result record into `{isLimited, causes}`.
- **Composition.** `isLimited` and `consumeAndCheckLimit` pass the result of a read or a consume to `getLimitOutcome`.

Files:

- `limiter_types.dfy` (module `LimiterTypes`): defines the limiter state, the two sentinels and the backend outcomes. Records are ordered sequences of `(bucket, value)` pairs, in key order.
- `positions.dfy` (module `Positions`): lists, in order, the positions of a sequence whose elements satisfy a predicate. Each accumulator loop keeps exactly the elements at such positions.
- `outcomes.dfy` (module `Outcomes`): the specification of `getLimitOutcome`, as `IsCause`, `Causes` and `OutcomeOf`, and the facts proved about it.
- `fan_out.dfy` (module `FanOut`): specification functions for what each fan-out computes, and lemmas about them. These cover substitution, collected errors, throwing, and the composed limit outcomes.
- `rate_limiters.dfy` (module `RateLimit`): the class `RateLimiters`. Its constructor fills the registry in a loop. Its methods build their records and error lists in loops, and each is proved against the functions above.

The limiter backend belongs to an external library, so its behaviour is a parameter here. A `get` backend maps a bucket name, that bucket's limiter and a key to one of two outcomes:

- `Fetched(state or null)`
- `GetRejected(error)`

A `consume` backend maps a bucket name, that bucket's limiter, a key and a point count to one of three outcomes:

- `Consumed(state)`
- `Rejected(state)`: the limit was exceeded.
- `ConsumeFailed(error)`: an exception.

The bucket name stands for the instance: the constructor builds a separate limiter object per bucket. Whether two of them share stored counters is up to the backend; a store limiter, for instance, keys its entries by a prefix taken from the options. So each bucket's calls may settle independently, and the model allows any outcome per `(bucket, limiter, key)`.

The fan-out runs through the request in record order. Each call writes only its own bucket's entry. The one shared accumulator is the list of errors, so running the calls in order computes the same entries as running them concurrently.

Three behaviours of the code that the model keeps:

- `consume` always substitutes `FAIL` for an exception. It ignores `failOnError`; only `getRemainingPoints` reads that option.
- When `consume` throws, the record it built is dropped. It is not attached to the thrown error, so the caller can never see a substituted `FAIL` (`FanOut.ConsumeResolvedIsBackendState`).
- The constructor checks nothing in the configuration, and there is no configuration error.

## Model

| member | source | states |
|---|---|---|
| `LimiterTypes.Instantiate` | src/index.ts:35-41 | A bucket gets an in-memory limiter exactly when the client is `'memory'`, and a store limiter on that client otherwise. The bucket's options are handed on unchanged. |
| `LimiterTypes.SentinelsDiffer` | src/index.ts:5-15 | `FAIL` has remaining points below zero and `PASS` above zero. The two differ only in `remainingPoints`. |
| `Outcomes.IsCause` | src/index.ts:112-113 | A null entry never limits. A `FAIL` entry always limits, and a `PASS` entry never does. |
| `Outcomes.Causes` | src/index.ts:110-117 | The cause list never has more entries than the record. |
| `Outcomes.OutcomeOf` | src/index.ts:109-122 | `isLimited` holds iff `causes` is defined. A defined `causes` is never empty. `causes` stays undefined exactly when nothing limits. |
| `Outcomes.CausesSnoc` | src/index.ts:111-116 | One more entry adds its bucket to the end of `causes` iff that entry limits. |
| `Outcomes.CausePositions` | src/index.ts:111-116 | The causes are exactly the record entries that are non-null with `remainingPoints <= 0`. They are listed in record order (strictly increasing positions), one per such entry. |
| `Outcomes.CauseMembership` | src/index.ts:111-116 | A bucket is in `causes` iff some entry for it is non-null with `remainingPoints <= 0`. |
| `Outcomes.CausesDistinct` | src/index.ts:111-116 | When a record has distinct keys, no bucket is listed twice in `causes`. |
| `Outcomes.LimitedIff` | src/index.ts:110-121 | The outcome is limited iff at least one entry limits. |
| `Outcomes.NothingUsedUpNotLimited` | src/index.ts:112-113 | A record in which every entry is null or has positive remaining points gives `{isLimited: false}` with `causes` undefined. |
| `FanOut.GetCalls` | src/index.ts:57-59 | One `get` call per requested bucket, made on that bucket's limiter with the requested key. |
| `FanOut.ConsumeCalls` | src/index.ts:84-86 | One `consume` call per requested bucket, made on that bucket's limiter with the key and the point count. |
| `FanOut.ConsumedOncePerBucket` | src/index.ts:84-86 | With distinct bucket names, call i of a consume is made on bucket i's own limiter with key i and the points. No two calls share a bucket, so each requested bucket is consumed from exactly once. |
| `FanOut.SettleGet` | src/index.ts:47-53 | A settled `get` gives its stored state or null unchanged. A rejected one is replaced by a non-null sentinel, which limits iff `failOnError` is set. |
| `FanOut.SettleConsume` | src/index.ts:72-80 | A settled consume, or a rejection carrying a state, gives that state. An exception is replaced by a state with negative remaining points, which limits. |
| `FanOut.ConsumeReply` | src/index.ts:93-96 | `consume` throws iff at least one exception was collected. The thrown error has the message "Failed to consume towards rate limit" and the collected errors as its cause. Otherwise it returns the settled record. |
| `FanOut.Fetch` | src/index.ts:55-66 | The record from a read has the request's keys, in the request's order. |
| `FanOut.Settle` | src/index.ts:82-91 | The record from a consume has the request's keys, in the request's order, and none of its entries is null. |
| `FanOut.Rejections` | src/index.ts:47-48 | There are no more logged read errors than calls. |
| `FanOut.Failures` | src/index.ts:72-77 | There are no more collected consume errors than calls. |
| `FanOut.FailurePositions` | src/index.ts:72-77 | The collected errors are exactly those of the calls that threw. There is one per failing bucket, in request order. |
| `FanOut.RejectionPositions` | src/index.ts:47-48 | The logged read errors are exactly those of the rejected `get` calls. There is one per failing bucket, in request order. |
| `FanOut.FailuresSnoc` | src/index.ts:72-80 | An exception is appended to the collected errors. A state-carrying rejection or a success adds nothing. |
| `FanOut.RejectionsSnoc` | src/index.ts:47-48 | Each rejected `get` adds its error to the log. A settled `get` adds nothing. |
| `FanOut.FailuresEmptyIff` | src/index.ts:70-77 | No error was collected iff no call threw an exception. |
| `FanOut.ConsumeThrowsIff` | src/index.ts:93-96 | `consume` throws iff some call threw an exception. The thrown error's `cause` is exactly the collected errors. |
| `FanOut.ConsumeContract` | src/index.ts:84-96 | In terms of the backend itself: `consume` throws iff some bucket's call threw, and then carries all the collected errors. Otherwise its record has the request's keys, in order. |
| `FanOut.ConsumeResolvedIsBackendState` | src/index.ts:84-96 | When `consume` returns, every requested bucket has exactly one entry. Each entry is the state the backend settled with, never the substituted `FAIL`. |
| `FanOut.SubstitutionDecides` | src/index.ts:47-53 | A rejected read limits iff `failOnError` is set. The `FAIL` substituted for a consume exception would limit whatever `failOnError` says, but a record holding it is never returned, because `consume` then throws. |
| `FanOut.IsLimitedCauses` | src/index.ts:104-116 | A bucket is a cause of `isLimited` iff one of two things holds. Either its stored state has `remainingPoints <= 0`, or its `get` was rejected and the facade fails closed. |
| `FanOut.NeverConsumedNotLimited` | src/index.ts:104-107 | If every requested key has never been consumed, `isLimited` answers `{isLimited: false}` with no causes. |
| `FanOut.FailOpenIgnoresRejections` | src/index.ts:47-53 | With the default fail-open policy, `isLimited` is decided only by the reads that settled. |
| `RateLimit.RateLimiters.FailOnError` | src/index.ts:49 | The facade fails closed exactly when `failOnError` is `true`. With no options, or with `failOnError` undefined or `false`, it fails open. |
| `RateLimit.RateLimiters.constructor` | src/index.ts:33-43 | The registry's keys are exactly the configured bucket names. Each bucket's limiter is built from its own options on the given client. |
| `RateLimit.RateLimiters.GetRemainingPoints` | src/index.ts:46-67 | Never throws. Returns one entry per requested bucket, in request order. Each entry is the backend's state or null, or `FAIL`/`PASS` by `failOnError` for a rejected call. Each rejection is logged once with "Failed to get rate limit". |
| `RateLimit.RateLimiters.Consume` | src/index.ts:69-97 | Throws iff some backend call threw. The thrown error's cause lists every such error in request order. Otherwise it returns one entry per requested bucket. Each exception is logged once. The calls made are exactly one per requested bucket, on its own limiter, in request order. |
| `RateLimit.RateLimiters.ConsumeAndCheckLimit` | src/index.ts:99-102 | Equals `getLimitOutcome` of what `consume` returns. A thrown consume error propagates unchanged. It makes the same consume calls and logger calls as `consume`. |
| `RateLimit.RateLimiters.IsLimited` | src/index.ts:104-107 | Equals `getLimitOutcome` of what `getRemainingPoints` returns. Each rejected read is logged once with "Failed to get rate limit". |
| `RateLimit.RateLimiters.GetLimitOutcome` | src/index.ts:109-122 | Its loop computes `OutcomeOf`, so the outcome is limited iff some entry is non-null with `remainingPoints <= 0`. |
| `RateLimit.SingleBucketScenario` | __tests__/index.spec.ts:16-45 | On one `default` bucket, a key that was never consumed reads as null and is not limited. Zero remaining points makes `default` the only cause. |
| `RateLimit.SingleBucketFailure` | src/index.ts:93-94 | On one bucket, a consume exception makes the call throw with that one error as its cause, even though the facade fails open. |

## Left out

- The limiter backends' internals are outside the model: window and refill arithmetic, blocking and `msBeforeNext` timing. They belong to the external rate-limiter library, so their outcomes are inputs. The numbers in the test (9, then 0) come from that library.
- The store client and its connections are not modelled. A store is an opaque handle string.
- Option merging is not modelled: the bucket's options and the store client are combined into a `StoreLimiter`.
- The application logger is not modelled as a side effect. Each method returns the calls it would make as a ghost list of `(error, message)` entries.
- The backends' own state is not modelled. A backend is a fixed function for the duration of one facade call. `consume` and `consumeAndCheckLimit` return the calls they make as a ghost list, one `(bucket, limiter, key, points)` entry per call.
- Real concurrency is not modelled: the fan-out runs in request order. When run concurrently, the result record's insertion order and the order of `errors` follow completion order. In particular, the order of `causes` after `isLimited` or `consumeAndCheckLimit` can then differ from request order.
- Unknown buckets: every requested bucket must be configured. An unknown one raises a `TypeError` at `this.instances[key]`, which the source does not catch. The sentinels do not apply to it.
- Request and configuration records are taken to have distinct keys, as a JavaScript object does.
- Integer-like bucket names are not modelled: JavaScript enumerates such keys first, in numeric order.
- Inherited enumerable properties, which `for...in` would also visit, are not modelled.
- JavaScript numbers are modelled as unbounded integers. Fractional, `NaN` and undefined `remainingPoints` values are not modelled.
- `RateLimit.RateLimiters.FailOnError` treats only `failOnError: true` as set. Other truthy values that JavaScript would accept are not modelled.
- Aliasing is not modelled. `getRemainingPoints` puts the shared module-level `FAIL` and `PASS` objects into the record it returns, so a caller that mutates an entry would change every later substitution. The model's sentinels are immutable values. Likewise the facade holds `opts` by reference and reads it again at each rejection. The model's `opts` is fixed at construction.
- Test-harness details, such as the `Date.now()`-based key, are not modelled.
