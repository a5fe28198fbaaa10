/** Values shared by the rate-limiter facade: the per-bucket limiter state,
    the two sentinel states, the outcomes a limiter backend can settle with,
    and the ordered maps (JavaScript records) the facade reads and builds. */
module LimiterTypes {

  datatype Option<+T> = None | Some(value: T)

  /** A bucket name (a key of the configuration and request records). */
  type Bucket = string

  /** The subject being limited within one bucket (a user id, an address). */
  type Key = string

  /** What a limiter reports about one key of one bucket. */
  datatype State = State(
    remainingPoints: int,
    consumedPoints: int,
    isFirstInDuration: bool,
    msBeforeNext: int)

  /** Substituted for a failed call when the caller must be denied. */
  const FAIL: State := State(-1, -1, false, -1)

  /** Substituted for a failed call when the caller must be let through:
      FAIL with one more remaining point than it. */
  const PASS: State := FAIL.(remainingPoints := 1)

  /** An exception raised by a limiter backend (a lost store connection, a timeout). */
  datatype Error = Error(message: string)

  /** One call of the application logger: the error and the message it was logged with. */
  datatype LogEntry = LogEntry(error: Error, message: string)

  const GET_FAILED: string := "Failed to get rate limit"
  const CONSUME_FAILED: string := "Failed to consume towards rate limit"

  /** The options of one bucket, handed on to the limiter unchecked. */
  datatype LimiterOptions = LimiterOptions(points: int, duration: int, blockDuration: Option<int>)

  /** Where the limiters keep their counters: in process memory, or in a
      shared store reached through an opaque client handle. */
  datatype Client = Memory | Store(handle: string)

  /** One constructed limiter instance. */
  datatype Limiter =
    | MemoryLimiter(options: LimiterOptions)
    | StoreLimiter(storeClient: string, options: LimiterOptions)

  /** The limiter the facade builds for one bucket. */
  function Instantiate(client: Client, options: LimiterOptions): (l: Limiter)
    ensures l.options == options
    ensures l.MemoryLimiter? <==> client == Memory
    ensures l.StoreLimiter? ==> l.storeClient == client.handle
  {
    match client
    case Memory => MemoryLimiter(options)
    case Store(handle) => StoreLimiter(handle, options)
  }

  /** How a backend `get` settles: with the stored state, or null for a key
      that was never consumed; or it rejects. */
  datatype GetOutcome = Fetched(stored: Option<State>) | GetRejected(error: Error)

  /** How a backend `consume` settles: with the new state; by rejecting with a
      state (the limit is exceeded); or by rejecting with an exception. */
  datatype ConsumeOutcome =
    | Consumed(state: State)
    | Rejected(state: State)
    | ConsumeFailed(error: Error)

  /** The backends, as the outcome each call would settle with. A call names
      the bucket whose instance it is made on: every bucket gets a limiter
      object of its own, and whether two of them share stored counters is up
      to the backend, so each bucket's calls may settle independently. */
  type GetBackend = (Bucket, Limiter, Key) -> GetOutcome
  type ConsumeBackend = (Bucket, Limiter, Key, int) -> ConsumeOutcome

  /** One `consume` call as made: the bucket, its limiter, the key and the points. */
  type ConsumeCall = (Bucket, Limiter, Key, int)

  /** A request record: bucket name to key, in the record's key order. */
  type Request = seq<(Bucket, Key)>

  /** A result record: bucket name to state or null, in the record's key order. */
  type ResultMap = seq<(Bucket, Option<State>)>

  /** The keys of an ordered record, in order. */
  function Buckets<V>(m: seq<(Bucket, V)>): (bs: seq<Bucket>)
    ensures |bs| == |m|
    ensures forall i :: 0 <= i < |m| ==> bs[i] == m[i].0
  {
    seq(|m|, i requires 0 <= i < |m| => m[i].0)
  }

  /** A record never holds the same key twice. */
  predicate DistinctBuckets<V>(m: seq<(Bucket, V)>) {
    forall i, j :: 0 <= i < j < |m| ==> m[i].0 != m[j].0
  }

  predicate Distinct<T(==)>(s: seq<T>) {
    forall i, j :: 0 <= i < j < |s| ==> s[i] != s[j]
  }

  /** What `getLimitOutcome` answers; `causes` is left undefined (None) when
      nothing limits. */
  datatype LimitOutcome = LimitOutcome(isLimited: bool, causes: Option<seq<Bucket>>)

  /** The exception `consume` throws, carrying every backend error as its cause. */
  datatype ConsumeError = ConsumeError(message: string, cause: seq<Error>)

  /** How an asynchronous facade call settles. */
  datatype Completion<+T> = Resolved(value: T) | Thrown(error: ConsumeError)

  /** The two sentinels differ only in their remaining points: one below
      zero, one above. */
  lemma SentinelsDiffer()
    ensures FAIL.remainingPoints < 0 < PASS.remainingPoints
    ensures PASS.(remainingPoints := FAIL.remainingPoints) == FAIL
    ensures FAIL != PASS
  {
  }
}
