/**
 * The meaning of one `RetryHelper.call`, as functions over values.
 *
 * `Loop` follows `call`'s `for` loop one iteration at a time, carrying the
 * locals `result` and `exception` and the trace so far. Independently of it,
 * `LastReturned`, `LastThrown` and `Rounds` say in closed form what those
 * locals and the trace are after `n` retried attempts; the lemmas connect the
 * two and derive the promises of the helper: the attempt bound, the two
 * immediate exits, the silent return on exhaustion, and that callbacks which
 * throw change nothing but the trace.
 */
module RetrySemantics {
  import opened RetryTypes

  /** What the loop body does after one attempt. */
  datatype Decision<T> = Finish(value: T) | Abort(cause: Exc) | Retry

  function Decide<T>(p: Policy<T>, o: TaskOutcome<T>): (d: Decision<T>)
  {
    match o
    case Returns(v) =>
      if p.retryOnCondition(v) then Retry else Finish(v)
    case Throws(e) =>
      if e.kind !in p.retryOnException then Abort(e)
      else if e.kind in p.retryWithException && !p.retryWithException[e.kind](e) then Abort(e)
      else Retry
  }

  /**
   * Runs a chain of callbacks composed with `andThen`: each runs in
   * registration order, and the first one that throws ends the chain (the
   * exception leaves the composed callback and is swallowed by the loop).
   */
  function RunChain<T>(role: Role, chain: seq<Callback<T>>, i: nat, result: Option<T>, exception: Option<Exc>)
    : (r: seq<Event<T>>)
  {
    if chain == [] then []
    else
      var threw := chain[0].throws(i, result, exception);
      [Invoked(role, chain[0].id, i, result, exception, threw)]
      + (if threw then [] else RunChain(role, chain[1..], i, result, exception))
  }

  /**
   * A chain's run invokes a prefix of the chain, in registration order, each
   * with the loop's current `(result, exception)`; it stops short of the end
   * only at a callback that threw, and every callback before that one
   * completed normally.
   */
  lemma {:induction false} ChainStopsAtFirstThrow<T>(role: Role, chain: seq<Callback<T>>, i: nat,
                                                     result: Option<T>, exception: Option<Exc>)
    ensures var r := RunChain(role, chain, i, result, exception);
            && |r| <= |chain|
            && (|chain| > 0 ==> |r| > 0)
            && (forall j :: 0 <= j < |r| ==>
                  r[j] == Invoked(role, chain[j].id, i, result, exception, chain[j].throws(i, result, exception)))
            && (forall j :: 0 <= j < |r| - 1 ==> !r[j].threw)
            && (|r| < |chain| ==> r[|r| - 1].threw)
  {
    if chain != [] {
      ChainStopsAtFirstThrow(role, chain[1..], i, result, exception);
    }
  }

  /** The iterations `i .. p.limit` of the loop, from the given locals and trace. */
  function Loop<T>(p: Policy<T>, task: Task<T>, i: nat, result: Option<T>, exception: Option<Exc>,
                   trace: seq<Event<T>>): (r: (CallResult<T>, seq<Event<T>>))
    decreases p.limit + 1 - i
  {
    if i > p.limit then (Returned(result), trace)
    else
      var o := task(i);
      var attempted := trace + [Attempted(i, o)];
      match Decide(p, o)
      case Finish(v) => (Returned(Some(v)), attempted)
      case Abort(e) => (Fatal(e), attempted)
      case Retry =>
        var result' := if o.Returns? then Some(o.value) else result;
        var exception' := if o.Throws? then Some(o.exc) else exception;
        Loop(p, task, i + 1, result', exception',
             attempted + RunChain(Listener, p.listeners, i, result', exception')
                       + RunChain(Backoff, p.backoffs, i, result', exception'))
  }

  /** A whole call: how it ends and what it did on the way. */
  function Execute<T>(p: Policy<T>, task: Option<Task<T>>): (r: (CallResult<T>, seq<Event<T>>))
  {
    if task.None? then (Misconfigured(TaskRequired), [])
    else Loop(p, task.value, 0, None, None, [])
  }

  // ---------------------------------------------------------------------
  // Closed-form reference definitions

  /** The value of the latest of the first `n` attempts that returned, if any. */
  function LastReturned<T>(task: Task<T>, n: nat): (r: Option<T>)
  {
    if n == 0 then None
    else match task(n - 1)
      case Returns(v) => Some(v)
      case Throws(_) => LastReturned(task, n - 1)
  }

  /** The exception of the latest of the first `n` attempts that threw, if any. */
  function LastThrown<T>(task: Task<T>, n: nat): (r: Option<Exc>)
  {
    if n == 0 then None
    else match task(n - 1)
      case Throws(e) => Some(e)
      case Returns(_) => LastThrown(task, n - 1)
  }

  /** The first `n` attempts all lead to another iteration. */
  predicate AllRetried<T>(p: Policy<T>, task: Task<T>, n: nat)
  {
    forall j :: 0 <= j < n ==> Decide(p, task(j)).Retry?
  }

  /**
   * The events of a retried iteration `j`: the attempt, then the listener
   * chain, then the backoff chain, both seeing the locals as they stand after
   * attempt `j`.
   */
  function Round<T>(p: Policy<T>, task: Task<T>, j: nat): (r: seq<Event<T>>)
  {
    var result := LastReturned(task, j + 1);
    var exception := LastThrown(task, j + 1);
    [Attempted(j, task(j))]
    + RunChain(Listener, p.listeners, j, result, exception)
    + RunChain(Backoff, p.backoffs, j, result, exception)
  }

  function Rounds<T>(p: Policy<T>, task: Task<T>, n: nat): (r: seq<Event<T>>)
  {
    if n == 0 then [] else Rounds(p, task, n - 1) + Round(p, task, n - 1)
  }

  /** The indices of the task invocations recorded in a trace, in order. */
  function Attempts<T>(trace: seq<Event<T>>): (r: seq<nat>)
  {
    if trace == [] then []
    else (if trace[0].Attempted? then [trace[0].index] else []) + Attempts(trace[1..])
  }

  /** The number of callback invocations with the given role in a trace. */
  function Invocations<T>(trace: seq<Event<T>>, role: Role): (r: nat)
  {
    if trace == [] then 0
    else (if trace[0].Invoked? && trace[0].role == role then 1 else 0) + Invocations(trace[1..], role)
  }

  /** No callback of the chain ever throws. */
  ghost predicate NeverThrows<T(!new)>(chain: seq<Callback<T>>)
  {
    forall j, i, r, e :: 0 <= j < |chain| ==> !chain[j].throws(i, r, e)
  }

  // ---------------------------------------------------------------------
  // The locals left over from earlier attempts

  lemma {:induction false} LastReturnedIsLatestReturn<T>(task: Task<T>, n: nat)
    ensures LastReturned(task, n).None? <==> forall j :: 0 <= j < n ==> task(j).Throws?
    ensures LastReturned(task, n).Some? ==>
              exists j :: 0 <= j < n && task(j) == Returns(LastReturned(task, n).value) &&
                          forall k :: j < k < n ==> task(k).Throws?
  {
    if n > 0 {
      LastReturnedIsLatestReturn(task, n - 1);
      if task(n - 1).Throws? && LastReturned(task, n).Some? {
        var j :| 0 <= j < n - 1 && task(j) == Returns(LastReturned(task, n - 1).value) &&
                 forall k :: j < k < n - 1 ==> task(k).Throws?;
        assert forall k :: j < k < n ==> task(k).Throws?;
      }
    }
  }

  lemma {:induction false} LastThrownIsLatestThrow<T>(task: Task<T>, n: nat)
    ensures LastThrown(task, n).None? <==> forall j :: 0 <= j < n ==> task(j).Returns?
    ensures LastThrown(task, n).Some? ==>
              exists j :: 0 <= j < n && task(j) == Throws(LastThrown(task, n).value) &&
                          forall k :: j < k < n ==> task(k).Returns?
  {
    if n > 0 {
      LastThrownIsLatestThrow(task, n - 1);
      if task(n - 1).Returns? && LastThrown(task, n).Some? {
        var j :| 0 <= j < n - 1 && task(j) == Throws(LastThrown(task, n - 1).value) &&
                 forall k :: j < k < n - 1 ==> task(k).Returns?;
        assert forall k :: j < k < n ==> task(k).Returns?;
      }
    }
  }

  // ---------------------------------------------------------------------
  // The loop against the closed form

  /** After `i` retried attempts the loop's state is the closed form's. */
  lemma {:induction false} LoopReachesRound<T>(p: Policy<T>, task: Task<T>, i: nat)
    requires i <= p.limit + 1 && AllRetried(p, task, i)
    ensures Loop(p, task, i, LastReturned(task, i), LastThrown(task, i), Rounds(p, task, i))
         == Execute(p, Some(task))
  {
    if i > 0 {
      var j := i - 1;
      LoopReachesRound(p, task, j);
      var o := task(j);
      assert Decide(p, o).Retry?;
      var r := LastReturned(task, i);
      var e := LastThrown(task, i);
      assert r == if o.Returns? then Some(o.value) else LastReturned(task, j);
      assert e == if o.Throws? then Some(o.exc) else LastThrown(task, j);
      var l := RunChain(Listener, p.listeners, j, r, e);
      var b := RunChain(Backoff, p.backoffs, j, r, e);
      assert Round(p, task, j) == ([Attempted(j, o)] + l) + b;
      assert Rounds(p, task, i) == Rounds(p, task, j) + Round(p, task, j);
      assert Rounds(p, task, j) + (([Attempted(j, o)] + l) + b) == ((Rounds(p, task, j) + [Attempted(j, o)]) + l) + b;
      assert Loop(p, task, j, LastReturned(task, j), LastThrown(task, j), Rounds(p, task, j))
          == Loop(p, task, i, r, e, Rounds(p, task, j) + [Attempted(j, o)] + l + b);
    }
  }

  /**
   * An attempt whose value the result predicate rejects ends the call at
   * once: the value is returned, no callback runs for that attempt and no
   * further attempt is made.
   */
  lemma ReturnsAtOnce<T>(p: Policy<T>, task: Task<T>, k: nat)
    requires k <= p.limit && AllRetried(p, task, k)
    requires task(k).Returns? && !p.retryOnCondition(task(k).value)
    ensures Execute(p, Some(task)) == (Returned(Some(task(k).value)), Rounds(p, task, k) + [Attempted(k, task(k))])
  {
    LoopReachesRound(p, task, k);
  }

  /**
   * An attempt that throws an exception whose kind is not retryable, or
   * whose kind's predicate rejects it, ends the call at once with that
   * exception wrapped; no callback runs and no further attempt is made.
   */
  lemma AbortsAtOnce<T>(p: Policy<T>, task: Task<T>, k: nat)
    requires k <= p.limit && AllRetried(p, task, k) && task(k).Throws?
    requires var e := task(k).exc;
             e.kind !in p.retryOnException ||
             (e.kind in p.retryWithException && !p.retryWithException[e.kind](e))
    ensures Execute(p, Some(task)) == (Fatal(task(k).exc), Rounds(p, task, k) + [Attempted(k, task(k))])
  {
    LoopReachesRound(p, task, k);
  }

  /**
   * When every one of the `limit + 1` attempts is retried, the call returns
   * without raising the value of the latest attempt that returned (`None`
   * when every attempt threw), after running the callbacks in every round,
   * the last one included.
   */
  lemma Exhausted<T>(p: Policy<T>, task: Task<T>)
    requires AllRetried(p, task, p.limit + 1)
    ensures Execute(p, Some(task)) == (Returned(LastReturned(task, p.limit + 1)), Rounds(p, task, p.limit + 1))
  {
    LoopReachesRound(p, task, p.limit + 1);
  }

  /** Either every attempt is retried or there is a first attempt that exits. */
  lemma {:induction false} FirstExit<T>(p: Policy<T>, task: Task<T>, n: nat)
    ensures AllRetried(p, task, n) ||
            exists k :: 0 <= k < n && AllRetried(p, task, k) && !Decide(p, task(k)).Retry?
  {
    if n > 0 {
      FirstExit(p, task, n - 1);
      if AllRetried(p, task, n - 1) && !AllRetried(p, task, n) {
        assert !Decide(p, task(n - 1)).Retry?;
      }
    }
  }

  // ---------------------------------------------------------------------
  // Counting task invocations

  lemma {:induction false} AttemptsAppend<T>(a: seq<Event<T>>, b: seq<Event<T>>)
    ensures Attempts(a + b) == Attempts(a) + Attempts(b)
  {
    if a != [] {
      AttemptsAppend(a[1..], b);
      assert (a + b)[0] == a[0];
      assert (a + b)[1..] == a[1..] + b;
    } else {
      assert a + b == b;
    }
  }

  lemma {:induction false} NoAttemptsInChain<T>(role: Role, chain: seq<Callback<T>>, i: nat,
                                                r: Option<T>, e: Option<Exc>)
    ensures Attempts(RunChain(role, chain, i, r, e)) == []
  {
    if chain != [] {
      var rest := if chain[0].throws(i, r, e) then [] else RunChain(role, chain[1..], i, r, e);
      NoAttemptsInChain(role, chain[1..], i, r, e);
      AttemptsAppend([Invoked(role, chain[0].id, i, r, e, chain[0].throws(i, r, e))], rest);
    }
  }

  /** The closed-form trace of `n` rounds invokes the task with indices `0 .. n - 1`. */
  lemma {:induction false} AttemptsOfRounds<T>(p: Policy<T>, task: Task<T>, n: nat)
    ensures Attempts(Rounds(p, task, n)) == seq(n, j => j)
  {
    if n > 0 {
      var j := n - 1;
      var r := LastReturned(task, j + 1);
      var e := LastThrown(task, j + 1);
      AttemptsOfRounds(p, task, j);
      NoAttemptsInChain(Listener, p.listeners, j, r, e);
      NoAttemptsInChain(Backoff, p.backoffs, j, r, e);
      var l := RunChain(Listener, p.listeners, j, r, e);
      var b := RunChain(Backoff, p.backoffs, j, r, e);
      AttemptsAppend([Attempted(j, task(j))] + l, b);
      AttemptsAppend([Attempted(j, task(j))], l);
      AttemptsAppend(Rounds(p, task, j), Round(p, task, j));
    }
  }

  /**
   * When attempt `k` is the first that exits, how the call ends and which
   * task invocations it makes are fixed by the decisions alone: the exit of
   * attempt `k`, after the invocations `0 .. k`.
   */
  lemma ExitFixedByDecisions<T>(p: Policy<T>, task: Task<T>, k: nat)
    requires k <= p.limit && AllRetried(p, task, k) && !Decide(p, task(k)).Retry?
    ensures var d := Decide(p, task(k));
            Execute(p, Some(task)).0 == if d.Finish? then Returned(Some(d.value)) else Fatal(d.cause)
    ensures Attempts(Execute(p, Some(task)).1) == seq(k + 1, j => j)
  {
    LoopReachesRound(p, task, k);
    AttemptsOfRounds(p, task, k);
    AttemptsAppend(Rounds(p, task, k), [Attempted(k, task(k))]);
    assert Attempts([Attempted(k, task(k))]) == [k];
    assert seq(k, j => j) + [k] == seq(k + 1, j => j);
  }

  /**
   * When every attempt is retried, how the call ends and which task
   * invocations it makes are fixed by the task alone: the latest returned
   * value, after the invocations `0 .. limit`.
   */
  lemma ExhaustedFixedByDecisions<T>(p: Policy<T>, task: Task<T>)
    requires AllRetried(p, task, p.limit + 1)
    ensures Execute(p, Some(task)).0 == Returned(LastReturned(task, p.limit + 1))
    ensures Attempts(Execute(p, Some(task)).1) == seq(p.limit + 1, j => j)
  {
    Exhausted(p, task);
    AttemptsOfRounds(p, task, p.limit + 1);
  }

  /**
   * The task is invoked at most `limit + 1` times, and the invocations carry
   * the loop indices `0, 1, 2, ...` in order.
   */
  lemma AttemptsBounded<T>(p: Policy<T>, task: Task<T>)
    ensures var attempts := Attempts(Execute(p, Some(task)).1);
            |attempts| <= p.limit + 1 && forall j :: 0 <= j < |attempts| ==> attempts[j] == j
  {
    FirstExit(p, task, p.limit + 1);
    if AllRetried(p, task, p.limit + 1) {
      ExhaustedFixedByDecisions(p, task);
    } else {
      var k :| 0 <= k < p.limit + 1 && AllRetried(p, task, k) && !Decide(p, task(k)).Retry?;
      ExitFixedByDecisions(p, task, k);
    }
  }

  // ---------------------------------------------------------------------
  // Callbacks that throw are swallowed

  /**
   * Two policies that differ only in their listener and backoff chains (and
   * so in which callbacks throw) end every call the same way after the same
   * task invocations.
   */
  lemma CallbacksDoNotSteer<T>(p: Policy<T>, q: Policy<T>, task: Task<T>)
    requires p.retryOnCondition == q.retryOnCondition
    requires p.retryOnException == q.retryOnException
    requires p.retryWithException == q.retryWithException
    requires p.limit == q.limit
    ensures Execute(p, Some(task)).0 == Execute(q, Some(task)).0
    ensures Attempts(Execute(p, Some(task)).1) == Attempts(Execute(q, Some(task)).1)
  {
    FirstExit(p, task, p.limit + 1);
    forall j | 0 <= j <= p.limit ensures Decide(p, task(j)) == Decide(q, task(j)) {
    }
    if AllRetried(p, task, p.limit + 1) {
      ExhaustedFixedByDecisions(p, task);
      ExhaustedFixedByDecisions(q, task);
    } else {
      var k :| 0 <= k < p.limit + 1 && AllRetried(p, task, k) && !Decide(p, task(k)).Retry?;
      ExitFixedByDecisions(p, task, k);
      ExitFixedByDecisions(q, task, k);
    }
  }

  // ---------------------------------------------------------------------
  // Counting callback invocations

  lemma {:induction false} InvocationsAppend<T>(a: seq<Event<T>>, b: seq<Event<T>>, role: Role)
    ensures Invocations(a + b, role) == Invocations(a, role) + Invocations(b, role)
  {
    if a != [] {
      InvocationsAppend(a[1..], b, role);
      assert (a + b)[0] == a[0];
      assert (a + b)[1..] == a[1..] + b;
    } else {
      assert a + b == b;
    }
  }

  /** The configured chain of the given role. */
  function Chain<T>(p: Policy<T>, role: Role): (chain: seq<Callback<T>>)
    ensures chain == p.listeners || chain == p.backoffs
  {
    if role == Listener then p.listeners else p.backoffs
  }

  lemma {:induction false} InvocationsOfChain<T(!new)>(role: Role, other: Role, chain: seq<Callback<T>>, i: nat,
                                                 r: Option<T>, e: Option<Exc>)
    requires NeverThrows(chain)
    ensures Invocations(RunChain(role, chain, i, r, e), other) == if role == other then |chain| else 0
  {
    if chain != [] {
      assert !chain[0].throws(i, r, e);
      assert NeverThrows(chain[1..]) by {
        forall j, i', r', e' | 0 <= j < |chain[1..]| ensures !chain[1..][j].throws(i', r', e') {
          assert chain[1..][j] == chain[j + 1];
        }
      }
      InvocationsOfChain(role, other, chain[1..], i, r, e);
      InvocationsAppend([Invoked(role, chain[0].id, i, r, e, false)], RunChain(role, chain[1..], i, r, e), other);
    }
  }

  /** A chain run records one invocation of its own role per callback it reached, and none of the other. */
  lemma {:induction false} InvocationsOfRun<T>(role: Role, other: Role, chain: seq<Callback<T>>, i: nat,
                                               r: Option<T>, e: Option<Exc>)
    ensures var run := RunChain(role, chain, i, r, e);
            Invocations(run, other) == if role == other then |run| else 0
  {
    if chain != [] {
      var threw := chain[0].throws(i, r, e);
      var rest := if threw then [] else RunChain(role, chain[1..], i, r, e);
      if !threw {
        InvocationsOfRun(role, other, chain[1..], i, r, e);
      }
      InvocationsAppend([Invoked(role, chain[0].id, i, r, e, threw)], rest, other);
    }
  }

  /**
   * Whichever callbacks throw, a retried round invokes at least the first
   * callback of each non-empty chain and at most the whole chain: a listener
   * that throws does not keep the backoffs from running.
   */
  lemma InvocationsOfRoundBounds<T>(p: Policy<T>, task: Task<T>, j: nat, role: Role)
    ensures |Chain(p, role)| > 0 ==> 1 <= Invocations(Round(p, task, j), role)
    ensures Invocations(Round(p, task, j), role) <= |Chain(p, role)|
  {
    var r := LastReturned(task, j + 1);
    var e := LastThrown(task, j + 1);
    var l := RunChain(Listener, p.listeners, j, r, e);
    var b := RunChain(Backoff, p.backoffs, j, r, e);
    InvocationsAppend([Attempted(j, task(j))] + l, b, role);
    InvocationsAppend([Attempted(j, task(j))], l, role);
    assert Invocations([Attempted(j, task(j))], role) == 0;
    ChainStopsAtFirstThrow(Listener, p.listeners, j, r, e);
    ChainStopsAtFirstThrow(Backoff, p.backoffs, j, r, e);
    InvocationsOfRun(Listener, role, p.listeners, j, r, e);
    InvocationsOfRun(Backoff, role, p.backoffs, j, r, e);
  }

  /** Each further retried round adds at least one invocation of a non-empty chain and at most its length. */
  lemma InvocationsOfNextRoundBounds<T>(p: Policy<T>, task: Task<T>, j: nat, role: Role)
    ensures |Chain(p, role)| > 0 ==> Invocations(Rounds(p, task, j), role) + 1 <= Invocations(Rounds(p, task, j + 1), role)
    ensures Invocations(Rounds(p, task, j + 1), role) <= Invocations(Rounds(p, task, j), role) + |Chain(p, role)|
  {
    InvocationsAppend(Rounds(p, task, j), Round(p, task, j), role);
    InvocationsOfRoundBounds(p, task, j, role);
  }

  /** `n` retried rounds invoke a non-empty chain at least `n` and at most `n` times its length. */
  lemma {:induction false} InvocationsOfRoundsBounds<T>(p: Policy<T>, task: Task<T>, n: nat, role: Role)
    ensures |Chain(p, role)| > 0 ==> n <= Invocations(Rounds(p, task, n), role)
    ensures Invocations(Rounds(p, task, n), role) <= n * |Chain(p, role)|
  {
    if n > 0 {
      InvocationsOfRoundsBounds(p, task, n - 1, role);
      InvocationsOfNextRoundBounds(p, task, n - 1, role);
      var c := |Chain(p, role)|;
      assert n * c == (n - 1) * c + c;
    }
  }

  /**
   * Callbacks that throw do not cut the loop short: when every attempt is
   * retried, all `limit + 1` attempts happen, and every non-empty chain runs
   * in each of them, at least its first callback. With a single listener and
   * a single backoff, each runs exactly `limit + 1` times, thrown or not.
   */
  lemma ThrowingCallbacksDoNotStopRounds<T>(p: Policy<T>, task: Task<T>)
    requires AllRetried(p, task, p.limit + 1)
    ensures Attempts(Execute(p, Some(task)).1) == seq(p.limit + 1, j => j)
    ensures |p.listeners| > 0 ==> p.limit + 1 <= Invocations(Execute(p, Some(task)).1, Listener)
    ensures Invocations(Execute(p, Some(task)).1, Listener) <= (p.limit + 1) * |p.listeners|
    ensures |p.backoffs| > 0 ==> p.limit + 1 <= Invocations(Execute(p, Some(task)).1, Backoff)
    ensures Invocations(Execute(p, Some(task)).1, Backoff) <= (p.limit + 1) * |p.backoffs|
    ensures |p.listeners| == 1 ==> Invocations(Execute(p, Some(task)).1, Listener) == p.limit + 1
    ensures |p.backoffs| == 1 ==> Invocations(Execute(p, Some(task)).1, Backoff) == p.limit + 1
  {
    var n := p.limit + 1;
    Exhausted(p, task);
    ExhaustedFixedByDecisions(p, task);
    assert Execute(p, Some(task)).1 == Rounds(p, task, n);
    assert Chain(p, Listener) == p.listeners && Chain(p, Backoff) == p.backoffs;
    InvocationsOfRoundsBounds(p, task, n, Listener);
    InvocationsOfRoundsBounds(p, task, n, Backoff);
    if |p.listeners| == 1 {
      assert n * |p.listeners| == n;
    }
    if |p.backoffs| == 1 {
      assert n * |p.backoffs| == n;
    }
  }

  /** A retried round in which no callback throws invokes each chain once, whole. */
  lemma InvocationsOfRound<T(!new)>(p: Policy<T>, task: Task<T>, j: nat, role: Role)
    requires NeverThrows(p.listeners) && NeverThrows(p.backoffs)
    ensures Invocations(Round(p, task, j), role) == |Chain(p, role)|
  {
    var r := LastReturned(task, j + 1);
    var e := LastThrown(task, j + 1);
    var l := RunChain(Listener, p.listeners, j, r, e);
    var b := RunChain(Backoff, p.backoffs, j, r, e);
    InvocationsAppend([Attempted(j, task(j))] + l, b, role);
    InvocationsAppend([Attempted(j, task(j))], l, role);
    assert Invocations([Attempted(j, task(j))], role) == 0;
    InvocationsOfChain(Listener, role, p.listeners, j, r, e);
    InvocationsOfChain(Backoff, role, p.backoffs, j, r, e);
  }

  /** Each further retried round in which no callback throws invokes each chain once more, whole. */
  lemma InvocationsOfNextRound<T(!new)>(p: Policy<T>, task: Task<T>, j: nat, role: Role)
    requires NeverThrows(p.listeners) && NeverThrows(p.backoffs)
    ensures Invocations(Rounds(p, task, j + 1), role) == Invocations(Rounds(p, task, j), role) + |Chain(p, role)|
  {
    InvocationsAppend(Rounds(p, task, j), Round(p, task, j), role);
    InvocationsOfRound(p, task, j, role);
  }

  /** `n` retried rounds in which no callback throws invoke each chain `n` times, whole. */
  lemma {:induction false} InvocationsOfRoundsFor<T(!new)>(p: Policy<T>, task: Task<T>, n: nat, role: Role)
    requires NeverThrows(p.listeners) && NeverThrows(p.backoffs)
    ensures Invocations(Rounds(p, task, n), role) == n * |Chain(p, role)|
  {
    if n > 0 {
      InvocationsOfRoundsFor(p, task, n - 1, role);
      InvocationsOfNextRound(p, task, n - 1, role);
      var c := |Chain(p, role)|;
      assert n * c == (n - 1) * c + c;
    }
  }

  lemma InvocationsOfRounds<T(!new)>(p: Policy<T>, task: Task<T>, n: nat)
    requires NeverThrows(p.listeners) && NeverThrows(p.backoffs)
    ensures Invocations(Rounds(p, task, n), Listener) == n * |p.listeners|
    ensures Invocations(Rounds(p, task, n), Backoff) == n * |p.backoffs|
  {
    InvocationsOfRoundsFor(p, task, n, Listener);
    InvocationsOfRoundsFor(p, task, n, Backoff);
    assert Chain(p, Listener) == p.listeners && Chain(p, Backoff) == p.backoffs;
  }

  /**
   * When the result predicate holds for every value the task returns and
   * none of the callbacks throws, the task runs `limit + 1` times, every
   * listener and every backoff runs once per attempt (the last one
   * included), and the value of the last attempt is returned.
   */
  lemma AlwaysRetriedResult<T(!new)>(p: Policy<T>, task: Task<T>)
    requires forall j :: 0 <= j <= p.limit ==> task(j).Returns? && p.retryOnCondition(task(j).value)
    requires NeverThrows(p.listeners) && NeverThrows(p.backoffs)
    ensures Execute(p, Some(task)).0 == Returned(Some(task(p.limit).value))
    ensures |Attempts(Execute(p, Some(task)).1)| == p.limit + 1
    ensures Invocations(Execute(p, Some(task)).1, Listener) == (p.limit + 1) * |p.listeners|
    ensures Invocations(Execute(p, Some(task)).1, Backoff) == (p.limit + 1) * |p.backoffs|
  {
    assert AllRetried(p, task, p.limit + 1);
    Exhausted(p, task);
    AttemptsOfRounds(p, task, p.limit + 1);
    InvocationsOfRounds(p, task, p.limit + 1);
  }
}
