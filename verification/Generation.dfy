/** Running one generation with retries (internal/core/pool.go). */
module Generation {
  import opened GoInt

  /** What the plugin process answers; a transient failure is the only kind retried. */
  datatype Outcome = Success(response: nat) | Transient(error: nat) | Permanent(error: nat)

  datatype Result = Response(response: nat) | Error(error: nat) | CallerGone | EmptySuccess

  /** Attempt k decides the call: no attempt before it settled it, and it does, or is the
      last.  An attempt settles the call if the caller is gone before it, or its answer is
      not a transient failure. */
  ghost predicate Decides(gone: int -> bool, plugin: int -> Outcome, maxRetries: int, k: int) {
    && 1 <= k <= maxRetries + 1
    && (forall i | 1 <= i < k :: !gone(i) && plugin(i).Transient?)
    && (gone(k) || !plugin(k).Transient? || k == maxRetries + 1)
  }

  /** The first attempt that settles the call decides it, or else the last one does;
      retries counts the failures that led to another attempt.  A negative
      maxRetries runs nothing and is an empty success, and so is the largest, whose
      successor wraps around. */
  method GenerateWithRetries(maxRetries: Int64, gone: int -> bool, plugin: int -> Outcome)
    returns (result: Result, runs: nat, retries: nat)
    ensures maxRetries < 0 || maxRetries == TWO_63 - 1 ==> result == EmptySuccess && runs == retries == 0
    ensures 0 <= maxRetries < TWO_63 - 1 ==>
              exists k :: Decides(gone, plugin, maxRetries, k)
                && retries == k - 1
                && runs == (if gone(k) then k - 1 else k)
                && (gone(k) <==> result == CallerGone)
                && (!gone(k) && plugin(k).Success? ==> result == Response(plugin(k).response))
                && (!gone(k) && !plugin(k).Success? ==> result == Error(plugin(k).error))
  {
    result, runs, retries := EmptySuccess, 0, 0;
    var maxAttempts := Wrap(maxRetries + 1);
    if maxRetries < TWO_63 - 1 {
      WrapInRange(maxRetries + 1);
    }
    var attempt := 1;
    while attempt <= maxAttempts
      invariant 1 <= attempt && (maxAttempts > 0 ==> attempt <= maxAttempts)
      invariant runs == retries == attempt - 1
      invariant maxAttempts <= 0 ==> attempt == 1
      invariant forall i | 1 <= i < attempt :: !gone(i) && plugin(i).Transient?
      invariant attempt == 1 ==> result == EmptySuccess
    {
      if gone(attempt) {
        return CallerGone, runs, retries;
      }

      var outcome := plugin(attempt);
      runs := runs + 1;
      if outcome.Success? {
        return Response(outcome.response), runs, retries;
      }

      result := Error(outcome.error);
      if !outcome.Transient? || attempt == maxAttempts {
        break;
      }

      retries := retries + 1;
      attempt := attempt + 1;
    }
  }
}
