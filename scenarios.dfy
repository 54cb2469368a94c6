/**
 * Clients of the builder and the helper, showing what follows from their
 * specifications alone.
 */
module RetryScenarios {
  import opened RetryTypes
  import opened RetrySemantics
  import opened Retry

  const TRANSIENT: Kind := 1

  /** A listener that never throws. */
  function Quiet<T>(): (c: Callback<T>)
  {
    Callback(0, (i: nat, r: Option<T>, e: Option<Exc>) => false)
  }

  /**
   * Limit 3, `TRANSIENT` retryable, one listener; the task throws `TRANSIENT`
   * twice and then returns "ok": three invocations, two listener calls, and
   * "ok" is returned.
   */
  method TransientThenOk() returns (out: CallResult<string>, trace: seq<Event<string>>)
    ensures out == Returned(Some("ok"))
    ensures Attempts(trace) == [0, 1, 2]
    ensures Invocations(trace, Listener) == 2 && Invocations(trace, Backoff) == 0
  {
    var b := new RetryHelperBuilder<string>();
    b.RetryIfException(Some(TRANSIENT));
    var s := b.MaxRetryCallLimit(3);
    b.RetryWithListener(Some(Quiet()));
    var r := b.Build();
    var h := r.value;
    var task: Task<string> := (i: nat) => if i < 2 then Throws(Exc(TRANSIENT, "busy")) else Returns("ok");
    out, trace := h.Call(Some(task));

    ghost var p := h.Config();
    assert AllRetried(p, task, 2);
    ReturnsAtOnce(p, task, 2);
    AttemptsOfRounds(p, task, 2);
    AttemptsAppend(Rounds(p, task, 2), [Attempted(2, task(2))]);
    assert NeverThrows(p.listeners) && NeverThrows(p.backoffs);
    InvocationsOfRounds(p, task, 2);
    InvocationsAppend(Rounds(p, task, 2), [Attempted(2, task(2))], Listener);
    InvocationsAppend(Rounds(p, task, 2), [Attempted(2, task(2))], Backoff);
  }

  /**
   * A helper built before a kind was registered on its builder sees the
   * registration: the same task first fails fatally, then, once the kind is
   * retryable, exhausts the single attempt and returns `None` without raising.
   */
  method KindRegisteredAfterBuild() returns (first: CallResult<int>, second: CallResult<int>)
    ensures first == Fatal(Exc(TRANSIENT, "busy"))
    ensures second == Returned(None)
  {
    var b := new RetryHelperBuilder<int>();
    var r := b.Build();
    var h := r.value;
    var task: Task<int> := (i: nat) => Throws(Exc(TRANSIENT, "busy"));
    var trace;
    first, trace := h.Call(Some(task));
    AbortsAtOnce(h.Config(), task, 0);

    b.RetryIfException(Some(TRANSIENT));
    second, trace := h.Call(Some(task));
    assert AllRetried(h.Config(), task, 1);
    Exhausted(h.Config(), task);
  }
}
