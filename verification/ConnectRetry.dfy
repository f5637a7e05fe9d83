/** Startup retry: connect_with_backoff of core/retry.py. */
module ConnectRetry {
  import opened Backoff

  /** What one call of connect() does. */
  datatype Attempt<+T, +E> = Succeeds(value: T) | Fails(error: E)

  /** With no attempt allowed the loop body never runs and nothing is returned. */
  datatype Outcome<+T, +E> = Connected(value: T) | Reraised(error: E) | Nothing

  /** Attempt k of connect does what connect(k) says, k from 1; random gives the draws in the
      order they are made. The first success is returned; an error is raised again only after
      exactly maxAttempts failures, and it is the last one; between two calls there is one
      sleep. */
  method ConnectWithBackoff<T, E>(connect: nat -> Attempt<T, E>, maxAttempts: int,
                                  baseDelay: real, maxDelay: real, random: nat -> Draw)
    returns (outcome: Outcome<T, E>, calls: nat, sleeps: seq<real>)
    ensures maxAttempts < 1 ==> outcome == Nothing && calls == 0 && sleeps == []
    ensures maxAttempts >= 1 ==> 1 <= calls <= maxAttempts && |sleeps| == calls - 1
    ensures forall k :: 1 <= k < calls ==> connect(k).Fails?
    ensures calls >= 1 && connect(calls).Succeeds? ==> outcome == Connected(connect(calls).value)
    ensures calls >= 1 && connect(calls).Fails? ==> calls == maxAttempts && outcome == Reraised(connect(calls).error)
    ensures forall i :: 0 <= i < |sleeps| ==> sleeps[i] == Jittered(Capped(baseDelay, maxDelay, i + 1), random(i))
  {
    calls, sleeps := 0, [];
    var attempt := 1;
    while attempt < maxAttempts + 1
      invariant 1 <= attempt && calls == |sleeps| == attempt - 1
      invariant attempt == 1 || attempt <= maxAttempts
      invariant forall k :: 1 <= k < attempt ==> connect(k).Fails?
      invariant forall i :: 0 <= i < |sleeps| ==> sleeps[i] == Jittered(Capped(baseDelay, maxDelay, i + 1), random(i))
    {
      calls := calls + 1;
      match connect(attempt) {
        case Succeeds(value) => return Connected(value), calls, sleeps;
        case Fails(error) =>
          if attempt == maxAttempts { return Reraised(error), calls, sleeps; }
          var delay := Min(baseDelay * Pow2(attempt - 1), maxDelay);
          sleeps := sleeps + [Jittered(delay, random(attempt - 1))];
      }
      attempt := attempt + 1;
    }
    outcome := Nothing;
  }
}
