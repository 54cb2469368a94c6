/**
 * Values shared by the retry builder, the built helper and the semantics of
 * one call: exception kinds, what a task attempt produces, callbacks and the
 * trace of observable events.
 */
module RetryTypes {

  /** Java's 32-bit `int`, the type of the attempt limit and of its argument. */
  newtype int32 = x: int | -0x8000_0000 <= x < 0x8000_0000

  const INT32_MAX: int32 := 0x7fff_ffff
  const INT32_MIN: int32 := -0x8000_0000

  /** An attempt limit: an `int` the builder has checked to be non-negative. */
  type Limit = x: int32 | 0 <= x

  /**
   * An exception class. `RetryHelper` matches classes by identity
   * (`contains(e.getClass())`, `get(e.getClass())`), never by subtyping, so a
   * kind is a plain tag compared with `==`.
   */
  type Kind = nat

  /** An exception thrown by the task: its class and the data a predicate may inspect. */
  datatype Exc = Exc(kind: Kind, message: string)

  /** What one invocation of the task does: return a value or throw an `Exception`. */
  datatype TaskOutcome<T> = Returns(value: T) | Throws(exc: Exc)

  /** The task: its `i`-th invocation (counting from 0) has outcome `task(i)`. */
  type Task<T> = nat -> TaskOutcome<T>

  /**
   * A listener or backoff strategy. `throws(i, result, exception)` says whether
   * the callback throws when the loop calls it in iteration `i` with those
   * arguments; any other effect it has is outside the helper.
   */
  datatype Callback<!T> = Callback(id: nat, throws: (nat, Option<T>, Option<Exc>) -> bool)

  datatype Role = Listener | Backoff

  /** An observable step of one `call`. */
  datatype Event<T> =
    | Attempted(index: nat, outcome: TaskOutcome<T>)
    | Invoked(role: Role, id: nat, index: nat, result: Option<T>, exception: Option<Exc>, threw: bool)

  /** Java `null` is `None`. */
  datatype Option<T> = None | Some(value: T)

  datatype Result<T, E> = Success(value: T) | Failure(error: E)

  /** The `RuntimeException`s the builder and `call` raise for a bad configuration. */
  datatype ConfigError =
    | TaskRequired
    | BlockStrategyRequired
    | IllegalLimit(count: int32)
    | UnknownPredicateKinds(kinds: set<Kind>)

  /** A builder operation either completes (and returns the builder) or throws. */
  datatype Status = Done | Rejected(error: ConfigError)

  /** How one `call` ends. `Fatal(e)` is the `RuntimeException` that wraps `e`. */
  datatype CallResult<T> =
    | Returned(value: Option<T>)
    | Fatal(cause: Exc)
    | Misconfigured(error: ConfigError)

  /** The configuration a built helper runs with, as values. */
  datatype Policy<!T> = Policy(
    retryOnCondition: T -> bool,
    retryOnException: set<Kind>,
    retryWithException: map<Kind, Exc -> bool>,
    listeners: seq<Callback<T>>,
    backoffs: seq<Callback<T>>,
    limit: nat)
}
