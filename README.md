# retry-helper in Dafny

A model of `cc.wang1.RetryHelper`, a generic retry helper, with proofs about it.
`RetryHelperBuilder` collects a retry configuration:
- a result predicate, combined with OR;
- a set of retryable exception classes;
- per-class exception predicates, combined with OR;
- a listener chain and a backoff (block) strategy chain;
- a non-negative attempt limit.

`build()` checks that every class with a predicate is also retryable and returns a `RetryHelper`. `RetryHelper.call(task)` runs the task up to `maxRetryCallLimit + 1` times:
- it returns at once a value that the result predicate does not ask to retry;
- it throws at once, wrapped, an exception whose class is not retryable or whose class predicate rejects it;
- otherwise it calls the listeners and then the backoff strategy (swallowing their exceptions) and goes round again;
- when the attempts run out, it returns the last value any attempt returned, without raising.

Files:
- `retry_types.dfy` (module `RetryTypes`): exception kinds, task outcomes, callbacks, trace events, errors, the policy value.
- `retry_semantics.dfy` (module `RetrySemantics`): the loop of `call` as a function (`Loop`, `Execute`), closed-form reference definitions (`LastReturned`, `LastThrown`, `Rounds`), and the lemmas that connect them.
- `retry_helper.dfy` (module `Retry`): the classes `RetryHelperBuilder` and `RetryHelper`, whose `Call` is an imperative loop proved equal to `Execute`, and the shared mutable collections `KindSet` and `PredicateTable`.
- `loop_counter.dfy` (module `JavaLoopCounter`): the loop counter as a 32-bit `int`, for the finding below.
- `scenarios.dfy` (module `RetryScenarios`): two clients of the builder and the helper.

How the Java maps to the model:
- The task is a function from attempt index to `Returns(v)` or `Throws(exc)`.
- An exception class is a `Kind` tag matched by equality, as `contains(e.getClass())` and `get(e.getClass())` do. There is no subtype matching.
- Predicates are Dafny functions.
- A listener or backoff strategy is a `Callback`. Its `throws` function says in which iterations, and with which `(result, exception)`, it throws. Each invocation is recorded in the trace as an `Invoked` event, with a flag saying whether it threw.
- A chain built with `andThen` runs its callbacks in registration order. It stops at the first callback that throws, because that exception leaves the composed callback and `call` catches it.
- The initial `null` of `result` and `exception` in `call` (lines 71-72) is `None`. A `null` listener chain is the empty sequence.
- The builder's initial no-op backoff `(r, t) -> {}` never throws and has no effect, so it leaves no event and is not in the sequence.

`build()` hands the builder's own `HashSet` and `HashMap` to the helper (line 157). A kind or predicate registered on the builder after `build()` is therefore seen by every helper it built before. The model keeps this sharing: `KindSet` and `PredicateTable` are objects that builder and helper both point to, and `RetryHelper.Config()` reads their current contents. Although `RetryHelper` never reassigns its fields after construction, two of them are the builder's own mutable collections, so a built helper's configuration can still change after `build()`. `RetryScenarios.KindRegisteredAfterBuild` shows the consequence.

## Model

| member | source | states |
|---|---|---|
| `RetrySemantics.ChainStopsAtFirstThrow` | src/main/java/cc/wang1/RetryHelper.java:160-174 | a listener or backoff chain composed with `andThen` invokes a prefix of its callbacks in registration order, each with the loop's current `(result, exception)`; every callback before the last completed normally; the run stops before the end only at a callback that threw |
| `RetrySemantics.LastReturnedIsLatestReturn` | src/main/java/cc/wang1/RetryHelper.java:71-76 | the `result` left after n attempts is `None` exactly when all n attempts threw; otherwise it is the value of the latest attempt that returned, with every later attempt having thrown (a throw does not clear `result`) |
| `RetrySemantics.LastThrownIsLatestThrow` | src/main/java/cc/wang1/RetryHelper.java:72-84 | the `exception` left after n attempts is `None` exactly when all n attempts returned; otherwise it is the latest exception thrown, with every later attempt having returned (a success does not clear `exception`) |
| `RetrySemantics.LoopReachesRound` | src/main/java/cc/wang1/RetryHelper.java:74-108 | after i retried attempts, the loop's `result`, `exception` and trace are the closed-form ones: latest returned value, latest exception, and i rounds of attempt, then listeners, then backoffs |
| `RetrySemantics.ReturnsAtOnce` | src/main/java/cc/wang1/RetryHelper.java:76-80 | if attempt k returns a value the result predicate does not retry, and all earlier attempts were retried, that value is returned; the trace ends with attempt k, so no listener or backoff runs for it and no later attempt happens |
| `RetrySemantics.AbortsAtOnce` | src/main/java/cc/wang1/RetryHelper.java:81-90 | if attempt k throws an exception whose kind is not retryable, or whose kind's predicate rejects it, the call fails with that exception wrapped; the trace ends with attempt k and no later attempt happens |
| `RetrySemantics.Exhausted` | src/main/java/cc/wang1/RetryHelper.java:74-110 | when all `limit + 1` attempts are retried, the call returns, without raising, the value of the latest attempt that returned (`None` if none did); listeners and backoffs ran in every round, the last one included |
| `RetrySemantics.AttemptsBounded` | src/main/java/cc/wang1/RetryHelper.java:74-76 | the task is invoked at most `limit + 1` times, with loop indices 0, 1, 2, ... in order |
| `RetrySemantics.CallbacksDoNotSteer` | src/main/java/cc/wang1/RetryHelper.java:93-107 | two configurations that differ only in their listener and backoff chains, and so in which callbacks throw, end every call the same way after the same task invocations |
| `RetrySemantics.ExitFixedByDecisions` | src/main/java/cc/wang1/RetryHelper.java:74-90 | when attempt k is the first that is not retried, the call returns that attempt's value or fails with its exception wrapped, and the task was invoked with indices 0 .. k exactly |
| `RetrySemantics.ExhaustedFixedByDecisions` | src/main/java/cc/wang1/RetryHelper.java:74-110 | when every attempt is retried, the call returns the latest value any attempt returned, and the task was invoked with indices 0 .. limit exactly |
| `RetrySemantics.InvocationsOfRoundBounds` | src/main/java/cc/wang1/RetryHelper.java:93-107 | whichever callbacks throw, a retried round invokes at least the first callback of each non-empty chain and at most the whole chain, because the listener and the backoff calls are guarded separately |
| `RetrySemantics.ThrowingCallbacksDoNotStopRounds` | src/main/java/cc/wang1/RetryHelper.java:93-107 | when every attempt is retried, all `limit + 1` attempts happen whichever callbacks throw; each non-empty listener or backoff chain runs in every attempt, between once and its length times, so a single listener and a single backoff each run exactly `limit + 1` times even when they throw |
| `RetrySemantics.AlwaysRetriedResult` | src/main/java/cc/wang1/RetryHelper.java:74-110 | if every returned value is retried and no callback throws, the task runs `limit + 1` times; each listener and each backoff runs once per attempt, the last one included; the last attempt's value is returned |
| `Retry.KindSet.Add` | src/main/java/cc/wang1/RetryHelper.java:180 | adding a kind leaves the set as the old set plus that kind |
| `Retry.PredicateTable.Merge` | src/main/java/cc/wang1/RetryHelper.java:188 | merging adds the kind as a key; the kind's predicate becomes the OR of its old predicate (if any) and the new one; other kinds are unchanged |
| `Retry.MissingKinds` | src/main/java/cc/wang1/RetryHelper.java:149-152 | the offending kinds are exactly the predicate kinds that are not retryable; there are none exactly when every predicate kind is retryable |
| `Retry.RetryHelper.constructor` | src/main/java/cc/wang1/RetryHelper.java:47-60 | the helper holds exactly the configuration it is given, including the same collection objects |
| `Retry.RetryHelper.Call` | src/main/java/cc/wang1/RetryHelper.java:63-111 | the loop's outcome and trace of task, listener and backoff invocations equal `Execute` of the current configuration; a missing task is a configuration error; the task runs at most `maxRetryCallLimit + 1` times |
| `Retry.RetryHelperBuilder.constructor` | src/main/java/cc/wang1/RetryHelper.java:117-146 | a new builder retries no value, has no retryable kinds, no predicates, no listeners, no extra backoff and limit 0; its two collections are fresh |
| `Retry.RetryHelperBuilder.Build` | src/main/java/cc/wang1/RetryHelper.java:148-158 | `build` fails, reporting the offending kinds, exactly when some predicate kind is not retryable; otherwise it returns a fresh helper holding the builder's current fields and the builder's own two collections |
| `Retry.RetryHelperBuilder.RetryWithListener` | src/main/java/cc/wang1/RetryHelper.java:160-166 | a present listener is appended to the end of the chain; an absent one changes nothing; the other fields are unchanged |
| `Retry.RetryHelperBuilder.RetryWithBlockStrategy` | src/main/java/cc/wang1/RetryHelper.java:168-174 | an absent strategy is rejected and leaves the chain as it was; a present one is appended to the end of the chain; the other fields are unchanged |
| `Retry.RetryHelperBuilder.RetryIfException` | src/main/java/cc/wang1/RetryHelper.java:176-182 | a present kind is added to the retryable set; an absent one changes nothing |
| `Retry.RetryHelperBuilder.RetryWithException` | src/main/java/cc/wang1/RetryHelper.java:184-190 | with kind and predicate both present, the predicate is OR-ed onto the kind's entry and other kinds keep theirs; if either is absent, nothing changes; the kind is not made retryable |
| `Retry.RetryHelperBuilder.RetryIfCondition` | src/main/java/cc/wang1/RetryHelper.java:192-198 | afterwards a value is retried exactly when the old predicate or the new one holds for it; an absent predicate leaves the predicate itself unchanged; the other fields are unchanged |
| `Retry.RetryHelperBuilder.MaxRetryCallLimit` | src/main/java/cc/wang1/RetryHelper.java:200-206 | a negative count is rejected and leaves the limit unchanged; otherwise the limit becomes the count; the other fields are unchanged |
| `JavaLoopCounter.IndexAsWrittenWraps` | src/main/java/cc/wang1/RetryHelper.java:74 | with `++i` on an `int`, the counter at iteration k is k reduced into the 32-bit two's-complement range |
| `JavaLoopCounter.LoopOutrunsLimitAtMaxValue` | src/main/java/cc/wang1/RetryHelper.java:74 | with limit `Integer.MAX_VALUE`, the counter at iteration `limit + 1` has wrapped to `Integer.MIN_VALUE`; the guard passes at every iteration, since no `int` exceeds `Integer.MAX_VALUE` |
| `RetryScenarios.TransientThenOk` | src/main/java/cc/wang1/RetryHelper.java:74-110 | limit 3 with one retryable kind and one listener: a task that throws that kind twice and then returns "ok" is invoked 3 times (indices 0, 1, 2); the listener runs twice; "ok" is returned |
| `RetryScenarios.KindRegisteredAfterBuild` | src/main/java/cc/wang1/RetryHelper.java:157 | a helper built before a kind is registered on its builder first fails fatally on that kind; after the registration, the same helper retries it and, with limit 0, returns `None` without raising |

## Left out

- `e.printStackTrace()` (lines 82, 99, 106) is diagnostic output only, so it is not modelled.
- Error message texts are not modelled (lines 65, 153-155, 170, 202). Each error is a `ConfigError` value; `build()`'s error carries the set of offending kinds and `maxRetryCallLimit`'s carries the rejected count.
- Predicates are total Dafny functions that never throw. In Java, an exception thrown by the result predicate is caught at line 81 like one from the task, and an exception from a per-kind predicate leaves `call` unwrapped. Neither case is modelled.
- `Throwable`s that are not `Exception`s escape `call` uncaught and are not modelled.
- `newBuilder`'s `Class<T> resultType` argument is unused by the code and is not modelled.
- Fluent `return this` is not modelled: builder methods return nothing, or a `Status` when they can throw.
- Blocking or sleeping inside a backoff strategy, and threads sharing a helper, are not modelled. A callback is modelled only by whether it throws.
- A callback's failure depends only on the iteration index and its `(result, exception)` arguments. A callback whose failures depend on other state, such as earlier calls to `call`, is captured only as far as it can be written that way.
- The task depends only on the attempt index within one call. A task that behaves differently across calls is modelled by passing a different function to each call.
- A task that returns Java `null` is `Returns(v)` for a value `v` of `T` standing for `null`. Only the initial `result = null` is `None`.
- The `blockStrategy == null` check (lines 67-69) and the `retryOnCondition == null` branch (line 196) cannot be reached through the builder. The model's types exclude those nulls.
- `Retry.RetryHelper.Call` counts attempts with an unbounded index, not Java's `int`, and so do `RetrySemantics.Loop`, `RetrySemantics.Execute` and every lemma about them; see the finding below.

## Findings

| source | as written | input that shows it | evidently intended | confidence | as-written member | corrected member |
|---|---|---|---|---|---|---|
| src/main/java/cc/wang1/RetryHelper.java:74 | `for (int i=0; i <= maxRetryCallLimit; ++i)` with a 32-bit `int` counter | `maxRetryCallLimit(Integer.MAX_VALUE)` and a task that is always retried: after 2^31 attempts `++i` wraps to `Integer.MIN_VALUE`, the guard still holds, and the loop never ends | at most `maxRetryCallLimit + 1` attempts, then return the last result | high; not executed | `JavaLoopCounter.LoopOutrunsLimitAtMaxValue` | `RetrySemantics.AttemptsBounded` |
