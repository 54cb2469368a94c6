/**
 * The retry helper and its builder, as objects whose fields change in place.
 *
 * `RetryHelperBuilder` accumulates the configuration; `Build` checks that
 * every kind with a predicate is also retryable and hands its fields to a new
 * `RetryHelper`. The set of retryable kinds and the predicate table are
 * mutable collections handed over BY REFERENCE, so they are objects here
 * (`KindSet`, `PredicateTable`) that a builder and the helpers it built share.
 * `RetryHelper.Call` is the attempt loop, proved against `Execute`.
 */
module Retry {
  import opened RetryTypes
  import opened RetrySemantics

  /** A mutable set of exception kinds (a `HashSet` of classes). */
  class KindSet {
    var elems: set<Kind>

    constructor ()
      ensures elems == {}
    {
      elems := {};
    }

    method Add(k: Kind)
      modifies this
      ensures elems == old(elems) + {k}
    {
      elems := elems + {k};
    }
  }

  /** A mutable map from exception kind to predicate (a `HashMap`). */
  class PredicateTable {
    var entries: map<Kind, Exc -> bool>

    constructor ()
      ensures entries == map[]
    {
      entries := map[];
    }

    /** `merge(k, p, Predicate::or)`: a second predicate for a kind is OR-ed onto the first. */
    method Merge(k: Kind, p: Exc -> bool)
      modifies this
      ensures entries.Keys == old(entries).Keys + {k}
      ensures forall x :: x in old(entries) && x != k ==> entries[x] == old(entries)[x]
      ensures forall e :: entries[k](e) == ((k in old(entries) && old(entries)[k](e)) || p(e))
    {
      if k in entries {
        var prev := entries[k];
        entries := entries[k := e => prev(e) || p(e)];
      } else {
        entries := entries[k := p];
      }
    }
  }

  /**
   * The kinds that have a predicate but are not retryable: `build()` fails
   * exactly when there is one, and reports them.
   */
  function MissingKinds(predicateKinds: set<Kind>, retryable: set<Kind>): (r: set<Kind>)
    ensures r <= predicateKinds && r !! retryable
    ensures forall k :: k in predicateKinds && k !in retryable ==> k in r
    ensures r == {} <==> predicateKinds <= retryable
  {
    set k | k in predicateKinds && k !in retryable
  }

  /** A built helper. Its fields never change; the two collections may, through its builder. */
  class RetryHelper<T> {
    const retryOnCondition: T -> bool
    const retryOnException: KindSet
    const retryWithException: PredicateTable
    const retryListeners: seq<Callback<T>>
    const blockStrategy: seq<Callback<T>>
    const maxRetryCallLimit: Limit

    constructor (retryOnCondition: T -> bool, retryOnException: KindSet, retryWithException: PredicateTable,
                 retryListeners: seq<Callback<T>>, blockStrategy: seq<Callback<T>>, maxRetryCallLimit: Limit)
      ensures this.retryOnCondition == retryOnCondition
      ensures this.retryOnException == retryOnException && this.retryWithException == retryWithException
      ensures this.retryListeners == retryListeners && this.blockStrategy == blockStrategy
      ensures this.maxRetryCallLimit == maxRetryCallLimit
    {
      this.retryOnCondition := retryOnCondition;
      this.retryOnException := retryOnException;
      this.retryWithException := retryWithException;
      this.retryListeners := retryListeners;
      this.blockStrategy := blockStrategy;
      this.maxRetryCallLimit := maxRetryCallLimit;
    }

    /** The configuration as it stands now, including the shared collections' contents. */
    function Config(): (p: Policy<T>)
      reads retryOnException, retryWithException
    {
      Policy(retryOnCondition, retryOnException.elems, retryWithException.entries,
             retryListeners, blockStrategy, maxRetryCallLimit as nat)
    }

    /**
     * Runs the task under the current configuration. The outcome and the
     * trace of task invocations and callbacks are those of `Execute`, so the
     * task runs at most `maxRetryCallLimit + 1` times, with indices 0, 1, ...
     */
    method Call(task: Option<Task<T>>) returns (out: CallResult<T>, trace: seq<Event<T>>)
      ensures (out, trace) == Execute(Config(), task)
      ensures var attempts := Attempts(trace);
              |attempts| <= maxRetryCallLimit as int + 1 &&
              forall j :: 0 <= j < |attempts| ==> attempts[j] == j
    {
      if task.None? {
        return Misconfigured(TaskRequired), [];
      }
      var t := task.value;
      ghost var p := Config();
      AttemptsBounded(p, t);
      var result: Option<T> := None;
      var exception: Option<Exc> := None;
      trace := [];
      var i: nat := 0;
      while i <= maxRetryCallLimit as nat
        invariant i <= p.limit + 1
        invariant Loop(p, t, i, result, exception, trace) == Execute(p, task)
      {
        var o := t(i);
        trace := trace + [Attempted(i, o)];
        match o {
          case Returns(v) =>
            result := Some(v);
            if !retryOnCondition(v) {
              return Returned(result), trace;
            }
          case Throws(e) =>
            exception := Some(e);
            if e.kind !in retryOnException.elems {
              return Fatal(e), trace;
            }
            if e.kind in retryWithException.entries && !retryWithException.entries[e.kind](e) {
              return Fatal(e), trace;
            }
        }
        trace := trace + RunChain(Listener, retryListeners, i, result, exception);
        trace := trace + RunChain(Backoff, blockStrategy, i, result, exception);
        i := i + 1;
      }
      out := Returned(result);
    }
  }

  /**
   * The builder. An absent listener, kind, kind predicate or result predicate
   * is ignored; an absent backoff strategy or a negative limit is rejected
   * and leaves the builder as it was.
   */
  class RetryHelperBuilder<T> {
    var retryOnCondition: T -> bool
    const retryOnException: KindSet
    const retryWithException: PredicateTable
    var retryListeners: seq<Callback<T>>
    var blockStrategy: seq<Callback<T>>
    var maxRetryCallLimit: Limit

    /** `newBuilder`: no value is retried, no kind is retryable, no callbacks, limit 0. */
    constructor ()
      ensures forall v :: !retryOnCondition(v)
      ensures fresh(retryOnException) && fresh(retryWithException)
      ensures retryOnException.elems == {} && retryWithException.entries == map[]
      ensures retryListeners == [] && blockStrategy == [] && maxRetryCallLimit == 0
    {
      retryOnCondition := (v: T) => false;
      retryOnException := new KindSet();
      retryWithException := new PredicateTable();
      retryListeners := [];
      blockStrategy := [];
      maxRetryCallLimit := 0;
    }

    method Build() returns (r: Result<RetryHelper<T>, ConfigError>)
      ensures var missing := MissingKinds(retryWithException.entries.Keys, retryOnException.elems);
              missing != {} ==> r == Failure(UnknownPredicateKinds(missing))
      ensures MissingKinds(retryWithException.entries.Keys, retryOnException.elems) == {} ==>
              && r.Success? && fresh(r.value)
              && r.value.retryOnCondition == retryOnCondition
              && r.value.retryOnException == retryOnException
              && r.value.retryWithException == retryWithException
              && r.value.retryListeners == retryListeners
              && r.value.blockStrategy == blockStrategy
              && r.value.maxRetryCallLimit == maxRetryCallLimit
    {
      var missing := MissingKinds(retryWithException.entries.Keys, retryOnException.elems);
      if missing != {} {
        return Failure(UnknownPredicateKinds(missing));
      }
      var helper := new RetryHelper(retryOnCondition, retryOnException, retryWithException,
                                    retryListeners, blockStrategy, maxRetryCallLimit);
      return Success(helper);
    }

    method RetryWithListener(listener: Option<Callback<T>>)
      modifies this
      ensures retryListeners == old(retryListeners) + (if listener.Some? then [listener.value] else [])
      ensures retryOnCondition == old(retryOnCondition) && blockStrategy == old(blockStrategy)
      ensures maxRetryCallLimit == old(maxRetryCallLimit)
    {
      if listener.None? {
        return;
      }
      retryListeners := retryListeners + [listener.value];
    }

    method RetryWithBlockStrategy(strategy: Option<Callback<T>>) returns (s: Status)
      modifies this
      ensures strategy.None? ==> s == Rejected(BlockStrategyRequired) && blockStrategy == old(blockStrategy)
      ensures strategy.Some? ==> s == Done && blockStrategy == old(blockStrategy) + [strategy.value]
      ensures retryOnCondition == old(retryOnCondition) && retryListeners == old(retryListeners)
      ensures maxRetryCallLimit == old(maxRetryCallLimit)
    {
      if strategy.None? {
        return Rejected(BlockStrategyRequired);
      }
      blockStrategy := blockStrategy + [strategy.value];
      return Done;
    }

    method RetryIfException(kind: Option<Kind>)
      modifies retryOnException
      ensures retryOnException.elems == old(retryOnException.elems) + (if kind.Some? then {kind.value} else {})
    {
      if kind.None? {
        return;
      }
      retryOnException.Add(kind.value);
    }

    method RetryWithException(kind: Option<Kind>, test: Option<Exc -> bool>)
      modifies retryWithException
      ensures kind.None? || test.None? ==> retryWithException.entries == old(retryWithException.entries)
      ensures kind.Some? && test.Some? ==>
              (var k, p, before := kind.value, test.value, old(retryWithException.entries);
               && retryWithException.entries.Keys == before.Keys + {k}
               && (forall x :: x in before && x != k ==> retryWithException.entries[x] == before[x])
               && (forall e :: retryWithException.entries[k](e) == ((k in before && before[k](e)) || p(e))))
    {
      if kind.None? || test.None? {
        return;
      }
      retryWithException.Merge(kind.value, test.value);
    }

    method RetryIfCondition(condition: Option<T -> bool>)
      modifies this
      ensures condition.None? ==> retryOnCondition == old(retryOnCondition)
      ensures forall v :: retryOnCondition(v) == (old(retryOnCondition)(v) || (condition.Some? && condition.value(v)))
      ensures retryListeners == old(retryListeners) && blockStrategy == old(blockStrategy)
      ensures maxRetryCallLimit == old(maxRetryCallLimit)
    {
      if condition.None? {
        return;
      }
      var prev, p := retryOnCondition, condition.value;
      retryOnCondition := (v: T) => prev(v) || p(v);
    }

    method MaxRetryCallLimit(count: int32) returns (s: Status)
      modifies this
      ensures count < 0 ==> s == Rejected(IllegalLimit(count)) && maxRetryCallLimit == old(maxRetryCallLimit)
      ensures count >= 0 ==> s == Done && maxRetryCallLimit == count
      ensures retryOnCondition == old(retryOnCondition) && retryListeners == old(retryListeners)
      ensures blockStrategy == old(blockStrategy)
    {
      if count < 0 {
        return Rejected(IllegalLimit(count));
      }
      maxRetryCallLimit := count;
      return Done;
    }
  }
}
