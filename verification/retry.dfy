/** `retryDatabaseOperation` (pkg/gtids/db.go): call an operation until it
    succeeds, fails for a reason that is not transient, or has been tried
    `maxRetries + 1` times, sleeping a little longer after each transient
    failure. The operation becomes an oracle `op` giving the outcome of its
    k-th call (counting from 0), and the sleeps become the list of delays in
    milliseconds. */
module Retry {
  import opened Wrappers
  import opened Text

  /** What one call of the operation returned. */
  datatype CallOutcome = Succeeded | Failed(message: string)

  /** The error `retryDatabaseOperation` returns: the operation's own error
      when it is not transient, or the wrapping error after the last attempt. */
  datatype OpError =
    | Permanent(message: string)
    | Exhausted(attempts: int, last: string)
  {
    /** The error text as Go's `%w` wrapping prints it. */
    function Text(): string {
      match this
      case Permanent(m) => m
      case Exhausted(n, last) =>
        "operation failed after " + IntToDecimal(n)
        + " attempts: " + last
    }
  }

  /** What a run did: the returned error (`None` for nil), how many times the
      operation was called, and the sleeps in between, in milliseconds. */
  datatype RetryRun = RetryRun(error: Option<OpError>, calls: nat, delays: seq<nat>)

  /** The transient-error test: the message mentions the connection, a
      timeout or a broken pipe. The fourth needle, "connection refused", is
      listed in the source as well; `RefusedIsSubsumed` shows it adds nothing. */
  predicate IsRetryable(message: string) {
    || Contains(message, "connection")
    || Contains(message, "timeout")
    || Contains(message, "broken pipe")
    || Contains(message, "connection refused")
  }

  predicate IsRetryableFailure(o: CallOutcome) {
    o.Failed? && IsRetryable(o.message)
  }

  /** The loop from iteration `attempt` on: every earlier call failed
      transiently. */
  function Attempts(op: nat -> CallOutcome, attempt: nat, maxRetries: int): (r: RetryRun)
    requires attempt <= maxRetries
    ensures attempt < r.calls <= maxRetries + 1
    ensures |r.delays| == r.calls - 1 - attempt
    ensures forall k :: 0 <= k < |r.delays| ==> r.delays[k] == (attempt + k + 1) * 100
    ensures forall k :: attempt <= k < r.calls - 1 ==> IsRetryableFailure(op(k))
    ensures r.error.None? <==> op(r.calls - 1).Succeeded?
    ensures r.error.Some? && r.error.value.Permanent? <==>
      op(r.calls - 1).Failed? && !IsRetryable(op(r.calls - 1).message)
    ensures r.error.Some? && r.error.value.Permanent? ==> r.error.value.message == op(r.calls - 1).message
    ensures r.error.Some? && r.error.value.Exhausted? <==>
      r.calls == maxRetries + 1 && IsRetryableFailure(op(maxRetries as nat))
    ensures r.error.Some? && r.error.value.Exhausted? ==>
      r.error.value == Exhausted(maxRetries + 1, op(maxRetries as nat).message)
    decreases maxRetries - attempt
  {
    match op(attempt)
    case Succeeded => RetryRun(None, attempt + 1, [])
    case Failed(m) =>
      if !IsRetryable(m) then RetryRun(Some(Permanent(m)), attempt + 1, [])
      else if attempt == maxRetries then RetryRun(Some(Exhausted(maxRetries + 1, m)), attempt + 1, [])
      else
        var rest := Attempts(op, attempt + 1, maxRetries);
        RetryRun(rest.error, rest.calls, [(attempt + 1) * 100] + rest.delays)
  }

  /** `retryDatabaseOperation(operation, maxRetries)`.
      - With `maxRetries < 0` the loop never runs and nil is returned without
        calling the operation.
      - Otherwise the operation is called between 1 and `maxRetries + 1`
        times; every call but the last failed transiently and was followed by
        a sleep of `(k + 1) * 100` ms after call `k`; there is no sleep after
        the last call.
      - The run returns nil exactly when the last call succeeded, the last
        call's own error exactly when that error is not transient, and the
        wrapping error reporting `maxRetries + 1` attempts exactly when all
        `maxRetries + 1` calls failed transiently. */
  function RetryDatabaseOperation(op: nat -> CallOutcome, maxRetries: int): (r: RetryRun)
    ensures maxRetries < 0 ==> r == RetryRun(None, 0, [])
    ensures maxRetries >= 0 ==>
      && 1 <= r.calls <= maxRetries + 1
      && |r.delays| == r.calls - 1
      && (forall k :: 0 <= k < |r.delays| ==> r.delays[k] == (k + 1) * 100)
      && (forall k :: 0 <= k < r.calls - 1 ==> IsRetryableFailure(op(k)))
      && (r.error.None? <==> op(r.calls - 1).Succeeded?)
      && (r.error.Some? && r.error.value.Permanent? <==>
            op(r.calls - 1).Failed? && !IsRetryable(op(r.calls - 1).message))
      && (r.error.Some? && r.error.value.Permanent? ==> r.error.value.message == op(r.calls - 1).message)
      && (r.error.Some? && r.error.value.Exhausted? <==>
            r.calls == maxRetries + 1 && IsRetryableFailure(op(maxRetries as nat)))
      && (r.error.Some? && r.error.value.Exhausted? ==>
            r.error.value == Exhausted(maxRetries + 1, op(maxRetries as nat).message))
  {
    if maxRetries < 0 then RetryRun(None, 0, []) else Attempts(op, 0, maxRetries)
  }

  /** The first call that ends the loop on its own: a success or a failure
      that is not transient, if one happens among the first `n` calls. */
  function FirstStop(op: nat -> CallOutcome, from: nat, n: nat): (k: Option<nat>)
    ensures k.Some? ==> from <= k.value < n && !IsRetryableFailure(op(k.value))
    ensures k.Some? ==> forall j :: from <= j < k.value ==> IsRetryableFailure(op(j))
    ensures k.None? ==> forall j :: from <= j < n ==> IsRetryableFailure(op(j))
    decreases n - from
  {
    if from >= n then None
    else if !IsRetryableFailure(op(from)) then Some(from)
    else FirstStop(op, from + 1, n)
  }

  /** The number of calls is fixed by the outcomes alone: one more than the
      first stopping call, or `maxRetries + 1` when every call fails
      transiently. */
  lemma CallsAreFirstStop(op: nat -> CallOutcome, maxRetries: int)
    requires maxRetries >= 0
    ensures var stop := FirstStop(op, 0, maxRetries + 1);
      RetryDatabaseOperation(op, maxRetries).calls ==
        if stop.Some? then stop.value + 1 else maxRetries + 1
  {
  }

  /** Calls after the last one cannot matter: two operations that agree on
      the calls a run makes give the same run. */
  lemma {:induction false} OnlyCallsMadeMatter(op: nat -> CallOutcome, op2: nat -> CallOutcome, attempt: nat, maxRetries: int)
    requires attempt <= maxRetries
    requires forall k :: attempt <= k < Attempts(op, attempt, maxRetries).calls ==> op(k) == op2(k)
    ensures Attempts(op2, attempt, maxRetries) == Attempts(op, attempt, maxRetries)
    decreases maxRetries - attempt
  {
    assert op2(attempt) == op(attempt);
    match op(attempt)
    case Succeeded =>
    case Failed(m) =>
      if IsRetryable(m) && attempt != maxRetries {
        assert Attempts(op, attempt, maxRetries).calls == Attempts(op, attempt + 1, maxRetries).calls;
        OnlyCallsMadeMatter(op, op2, attempt + 1, maxRetries);
      }
  }

  /** A run never looks at the outcome of a call it did not make. */
  lemma NoFurtherCalls(op: nat -> CallOutcome, op2: nat -> CallOutcome, maxRetries: int)
    requires forall k :: 0 <= k < RetryDatabaseOperation(op, maxRetries).calls ==> op(k) == op2(k)
    ensures RetryDatabaseOperation(op2, maxRetries) == RetryDatabaseOperation(op, maxRetries)
  {
    if maxRetries >= 0 {
      OnlyCallsMadeMatter(op, op2, 0, maxRetries);
    }
  }

  function Sum(xs: seq<nat>): nat {
    if xs == [] then 0 else xs[0] + Sum(xs[1..])
  }

  lemma {:induction false} SumOfSteps(xs: seq<nat>, start: nat)
    requires forall k :: 0 <= k < |xs| ==> xs[k] == (start + k + 1) * 100
    ensures 2 * Sum(xs) == 100 * |xs| * (2 * start + |xs| + 1)
  {
    if xs != [] {
      var n := |xs|;
      assert forall k :: 0 <= k < n - 1 ==> xs[1..][k] == xs[k + 1];
      SumOfSteps(xs[1..], start + 1);
      assert Sum(xs) == (start + 1) * 100 + Sum(xs[1..]);
      StepsIdentity(n - 1, start);
    }
  }

  lemma StepsIdentity(m: int, start: int)
    ensures 2 * ((start + 1) * 100) + 100 * m * (2 * (start + 1) + m + 1) == 100 * (m + 1) * (2 * start + (m + 1) + 1)
  {
  }

  /** The backoff is linear, not exponential: a run that calls the operation
      `n` times sleeps `50 * (n - 1) * n` ms in all. */
  lemma TotalBackoff(op: nat -> CallOutcome, maxRetries: int)
    requires maxRetries >= 0
    ensures var r := RetryDatabaseOperation(op, maxRetries);
      Sum(r.delays) == 50 * (r.calls - 1) * r.calls
  {
    var r := RetryDatabaseOperation(op, maxRetries);
    SumOfSteps(r.delays, 0);
  }

  /** The "connection refused" test is subsumed by the "connection" test. */
  lemma RefusedIsSubsumed(message: string)
    ensures IsRetryable(message) <==>
      Contains(message, "connection") || Contains(message, "timeout") || Contains(message, "broken pipe")
  {
    if Contains(message, "connection refused") {
      assert "connection refused" == "connection" + " refused";
      ContainsPrefixOfNeedle(message, "connection", " refused");
    }
  }

  /** Three tries with the last one succeeding: two sleeps of 100 and 200 ms
      and a nil result. */
  lemma ThirdTimeLucky()
    ensures var op := (k: nat) => if k < 2 then Failed("connection reset") else Succeeded;
      RetryDatabaseOperation(op, 3) == RetryRun(None, 3, [100, 200])
  {
    var op := (k: nat) => if k < 2 then Failed("connection reset") else Succeeded;
    assert "connection reset"[..10] == "connection";
    assert Attempts(op, 2, 3) == RetryRun(None, 3, []);
    assert Attempts(op, 1, 3) == RetryRun(None, 3, [200]);
  }
}
