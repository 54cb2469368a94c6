/**
 * The attempt loop's counter as `RetryHelper.call` declares it: a 32-bit `int i`,
 * advanced with `++i` and compared with `i <= maxRetryCallLimit`.
 *
 * When the limit is `Integer.MAX_VALUE` the guard holds for every `int`, so
 * after `2^31` retried attempts `i` wraps to `Integer.MIN_VALUE` and the loop
 * goes on attempting: more than `limit + 1` invocations of the task. The rest
 * of the model counts with an unbounded index, for which
 * `RetrySemantics.AttemptsBounded` proves the intended bound.
 */
module JavaLoopCounter {
  import opened RetryTypes

  const TWO_31: int := 0x8000_0000
  const TWO_32: int := 0x1_0000_0000

  /** Java's `++i` on an `int`. */
  function Increment(i: int32): (j: int32)
  {
    if i == INT32_MAX then INT32_MIN else i + 1
  }

  /** The value of `i` when iteration `k` (counting from 0) begins. */
  function IndexAsWritten(k: nat): (i: int32)
  {
    if k == 0 then 0 else Increment(IndexAsWritten(k - 1))
  }

  /** The loop guard as written. */
  predicate Guard(i: int32, limit: Limit)
  {
    i <= limit
  }

  /** The counter is `k` reduced into the 32-bit two's-complement range. */
  lemma {:induction false} IndexAsWrittenWraps(k: nat)
    ensures IndexAsWritten(k) as int == (k + TWO_31) % TWO_32 - TWO_31
  {
    if k > 0 {
      IndexAsWrittenWraps(k - 1);
      var n := k - 1 + TWO_31;
      assert (n + 1) % TWO_32 == if n % TWO_32 == TWO_32 - 1 then 0 else n % TWO_32 + 1;
    }
  }

  /**
   * With `maxRetryCallLimit == Integer.MAX_VALUE`, iteration `limit + 1` (the
   * `limit + 2`-th) still begins: the counter has wrapped to
   * `Integer.MIN_VALUE`. The guard holds there and at every later iteration
   * for a reason of type alone: no `int` exceeds `Integer.MAX_VALUE`.
   */
  lemma LoopOutrunsLimitAtMaxValue()
    ensures var limit: Limit := INT32_MAX;
            && IndexAsWritten(limit as nat + 1) == INT32_MIN
            && forall k: nat :: Guard(IndexAsWritten(k), limit)
  {
    IndexAsWrittenWraps(TWO_31);
  }
}
