/** What the ingest loop must do, said of the calls its consumer answers.

A run of the loop of services/stream_ingest.py is driven by an arbitrary sequence of calls of
batches(): each yields some batches and then returns, raises or is still in flight. When the
loop stops is defined here by looking at the calls alone; the loop itself only counts. */
module IngestTrace {
  import opened Lists
  import opened Merge
  import opened LsmStore
  import opened Backoff

  const BASE_DELAY := 1.0
  const MAX_DELAY := 60.0
  const MAX_FAILURES := 5

  /** A batch and the time at which it is recorded. */
  datatype Delivery = Delivery(batch: Batch, at: int)

  datatype Ending = Returned | Raised | InFlight

  datatype Call = Call(items: seq<Delivery>, ending: Ending)

  datatype Exit = Closed | ShutdownRequested | StillRunning

  // ---- when the loop stops ----------------------------------------------------------------

  /** Call n ends five calls in a row that all raised, the last four without yielding. */
  predicate FailureWindow(calls: seq<Call>, n: nat)
    requires n < |calls|
  {
    && n + 1 >= MAX_FAILURES
    && (forall j :: n + 1 - MAX_FAILURES <= j <= n ==> calls[j].ending.Raised?)
    && (forall j :: n + 1 - MAX_FAILURES < j <= n ==> calls[j].items == [])
  }

  /** In numbers. */
  lemma FailureWindowIs(calls: seq<Call>, n: nat)
    requires n < |calls|
    ensures FailureWindow(calls, n) <==>
            n >= 4 && (forall j :: n - 4 <= j <= n ==> calls[j].ending.Raised?) &&
            forall j :: n - 3 <= j <= n ==> calls[j].items == []
  {
  }

  /** The loop makes no call after call n. */
  predicate Stops(enabled: bool, calls: seq<Call>, n: nat)
    requires n < |calls|
  {
    !calls[n].ending.Raised? || (enabled && FailureWindow(calls, n))
  }

  function FirstStop(enabled: bool, calls: seq<Call>, n: nat): (made: nat)
    requires n <= |calls|
    ensures n <= made <= |calls|
    ensures forall m :: n <= m < made - 1 ==> !Stops(enabled, calls, m)
    ensures made < |calls| ==> n < made && Stops(enabled, calls, made - 1)
    decreases |calls| - n
  {
    if n == |calls| then n
    else if Stops(enabled, calls, n) then n + 1
    else FirstStop(enabled, calls, n + 1)
  }

  /** How many calls the loop makes before it returns or the calls run out. */
  function CallsMade(enabled: bool, calls: seq<Call>): nat { FirstStop(enabled, calls, 0) }

  function ExitOf(enabled: bool, calls: seq<Call>): Exit {
    var made := CallsMade(enabled, calls);
    if made == 0 then StillRunning
    else match calls[made - 1].ending
      case Returned => Closed
      case InFlight => StillRunning
      case Raised => if enabled && FailureWindow(calls, made - 1) then ShutdownRequested else StillRunning
  }

  lemma CallsMadeUnique(enabled: bool, calls: seq<Call>, made: nat)
    requires made <= |calls|
    requires forall m :: 0 <= m < made - 1 ==> !Stops(enabled, calls, m)
    requires made < |calls| ==> made >= 1 && Stops(enabled, calls, made - 1)
    ensures made == CallsMade(enabled, calls)
  {
    assert forall m :: 0 <= m < CallsMade(enabled, calls) - 1 ==> !Stops(enabled, calls, m);
  }

  /** None of the first n calls stops the loop. */
  predicate GoesOn(enabled: bool, calls: seq<Call>, n: nat)
    requires n <= |calls|
  {
    n == 0 || (GoesOn(enabled, calls, n - 1) && !Stops(enabled, calls, n - 1))
  }

  lemma {:induction false} GoesOnMeans(enabled: bool, calls: seq<Call>, n: nat)
    requires n <= |calls|
    ensures GoesOn(enabled, calls, n) <==> forall m :: 0 <= m < n ==> !Stops(enabled, calls, m)
  {
    if n == 0 {
    } else {
      GoesOnMeans(enabled, calls, n - 1);
    }
  }

  /** How many calls are followed by a sleep: those that do not stop the loop. */
  function SleepCount(enabled: bool, calls: seq<Call>): nat {
    var made := CallsMade(enabled, calls);
    if made > 0 && Stops(enabled, calls, made - 1) then made - 1 else made
  }

  lemma StopsAt(enabled: bool, calls: seq<Call>, n: nat)
    requires n < |calls| && GoesOn(enabled, calls, n) && Stops(enabled, calls, n)
    ensures CallsMade(enabled, calls) == n + 1 && SleepCount(enabled, calls) == n
    ensures ExitOf(enabled, calls) == match calls[n].ending
              case Returned => Closed case InFlight => StillRunning case Raised => ShutdownRequested
  {
    GoesOnMeans(enabled, calls, n);
    CallsMadeUnique(enabled, calls, n + 1);
  }

  lemma NeverStops(enabled: bool, calls: seq<Call>)
    requires GoesOn(enabled, calls, |calls|)
    ensures CallsMade(enabled, calls) == |calls| == SleepCount(enabled, calls) && ExitOf(enabled, calls) == StillRunning
  {
    GoesOnMeans(enabled, calls, |calls|);
    CallsMadeUnique(enabled, calls, |calls|);
    if calls != [] { assert !Stops(enabled, calls, |calls| - 1); }
  }

  /** The hook is called at call n exactly when automatic shutdown is enabled, calls n-4 to n
      all raised, calls n-3 to n yielded nothing, and n is the first such call, every call
      before it having raised. */
  lemma ShutdownExactly(enabled: bool, calls: seq<Call>, n: nat)
    requires n < |calls|
    ensures CallsMade(enabled, calls) == n + 1 && ExitOf(enabled, calls) == ShutdownRequested
            <==>
            enabled && FailureWindow(calls, n) &&
            forall m :: 0 <= m < n ==> calls[m].ending.Raised? && !FailureWindow(calls, m)
  {
    if enabled && FailureWindow(calls, n) &&
       forall m :: 0 <= m < n ==> calls[m].ending.Raised? && !FailureWindow(calls, m)
    {
      CallsMadeUnique(enabled, calls, n + 1);
      assert calls[n].ending.Raised?;
    }
    if CallsMade(enabled, calls) == n + 1 && ExitOf(enabled, calls) == ShutdownRequested {
      forall m | 0 <= m < n ensures calls[m].ending.Raised? && !FailureWindow(calls, m) {
        assert !Stops(enabled, calls, m);
      }
    }
  }

  // ---- the failure count --------------------------------------------------------------------

  /** The consecutive failures after the first i calls, all of which raised. */
  function Failures(calls: seq<Call>, i: nat): nat
    requires i <= |calls|
  {
    if i == 0 then 0 else if calls[i - 1].items != [] then 1 else Failures(calls, i - 1) + 1
  }

  lemma {:induction false} FailuresAtLeast(calls: seq<Call>, i: nat, k: nat)
    requires i <= |calls| && k >= 1
    ensures Failures(calls, i) >= k <==> k <= i && forall j :: 0 <= j && i - k < j < i ==> calls[j].items == []
  {
    if i == 0 || k <= 1 {
    } else {
      FailuresAtLeast(calls, i - 1, k - 1);
      assert calls[i - 1].items == [] ==>
        ((forall j :: 0 <= j && i - k < j < i ==> calls[j].items == [])
         <==> (forall j :: 0 <= j && i - k < j < i - 1 ==> calls[j].items == []));
    }
  }

  /** Counting to five is the window: the counter reaches the limit exactly at a call that
      ends a failure window. */
  lemma CountIsWindow(calls: seq<Call>, n: nat)
    requires n < |calls|
    requires forall j :: 0 <= j <= n ==> calls[j].ending.Raised?
    ensures Failures(calls, n + 1) >= MAX_FAILURES <==> FailureWindow(calls, n)
  {
    FailuresAtLeast(calls, n + 1, MAX_FAILURES);
  }

  // ---- termination ---------------------------------------------------------------------------

  /** How many of the calls yield a batch. */
  function Yielding(calls: seq<Call>): nat {
    if calls == [] then 0
    else Yielding(calls[..|calls| - 1]) + if calls[|calls| - 1].items != [] then 1 else 0
  }

  lemma {:induction false} CallsBetweenYields(calls: seq<Call>, i: nat)
    requires i <= |calls|
    requires forall m :: 0 <= m < i ==> Failures(calls, m) < MAX_FAILURES
    ensures i <= 4 * Yielding(calls[..i]) + Failures(calls, i)
  {
    if i == 0 {
    } else {
      CallsBetweenYields(calls, i - 1);
      YieldingSnoc(calls, i - 1);
      assert Failures(calls, i - 1) < MAX_FAILURES;
    }
  }

  lemma YieldingSnoc(calls: seq<Call>, i: nat)
    requires i < |calls|
    ensures Yielding(calls[..i + 1]) == Yielding(calls[..i]) + if calls[i].items != [] then 1 else 0
  {
    assert calls[..i + 1][..i] == calls[..i];
  }

  /** Before the call that stops it the loop has never counted five failures. */
  lemma CountStaysBelow(calls: seq<Call>, n: nat)
    requires n <= |calls|
    requires forall m :: 0 <= m < n ==> !Stops(true, calls, m)
    ensures forall m :: 0 <= m <= n ==> Failures(calls, m) < MAX_FAILURES
  {
    forall m | 0 <= m <= n ensures Failures(calls, m) < MAX_FAILURES {
      if m > 0 {
        forall j | 0 <= j < m ensures calls[j].ending.Raised? { assert !Stops(true, calls, j); }
        assert !Stops(true, calls, m - 1);
        CountIsWindow(calls, m - 1);
      }
    }
  }

  /** With automatic shutdown enabled the loop makes at most 4N + 5 calls, where N of them
      yield something, whatever the consumer does. */
  lemma CallsAreBounded(calls: seq<Call>)
    ensures var made := CallsMade(true, calls); made <= 4 * Yielding(calls[..made]) + MAX_FAILURES
  {
    var made := CallsMade(true, calls);
    if made > 0 {
      CountStaysBelow(calls, made - 1);
      CallsBetweenYields(calls, made - 1);
      YieldingSnoc(calls, made - 1);
    }
  }

  /** So a trace of ended calls, at most n of them yielding, that is 4n + 5 long makes the loop
      return: the consumer closed or the hook was called. */
  lemma LoopReturns(calls: seq<Call>, n: nat)
    requires |calls| >= 4 * n + MAX_FAILURES && Yielding(calls) <= n
    requires forall i :: 0 <= i < |calls| ==> !calls[i].ending.InFlight?
    ensures ExitOf(true, calls) != StillRunning
  {
    var made := CallsMade(true, calls);
    if ExitOf(true, calls) == StillRunning {
      assert made == |calls| && (made > 0 ==> !Stops(true, calls, made - 1));
      CountStaysBelow(calls, made);
      assert calls[..made] == calls && Failures(calls, made) < MAX_FAILURES;
      CallsBetweenYields(calls, made);
    }
  }

  /** A trace in which n calls yield: every fourth call from the fifth on. */
  function SlowTrace(n: nat, d: Delivery): seq<Call> {
    seq(4 * n + 5, i => Call(if i % 4 == 0 && 4 <= i <= 4 * n then [d] else [], Raised))
  }

  lemma {:induction false} SlowTraceYielding(n: nat, d: Delivery, i: nat)
    requires i <= 4 * n + 5
    ensures Yielding(SlowTrace(n, d)[..i]) == if i <= 4 then 0 else if i <= 4 * n then (i - 1) / 4 else n
  {
    if i == 0 {
    } else {
      SlowTraceYielding(n, d, i - 1);
      assert SlowTrace(n, d)[..i][..i - 1] == SlowTrace(n, d)[..i - 1];
    }
  }

  /** The bound is exact: for every n a trace with n yielding calls makes the loop call
      batches() 4n + 5 times. */
  lemma BoundIsReached(n: nat, d: Delivery)
    ensures Yielding(SlowTrace(n, d)) == n
    ensures CallsMade(true, SlowTrace(n, d)) == 4 * n + 5
    ensures ExitOf(true, SlowTrace(n, d)) == ShutdownRequested
  {
    var calls := SlowTrace(n, d);
    SlowTraceYielding(n, d, |calls|);
    assert calls[..|calls|] == calls;
    forall m | 0 <= m < |calls| - 1 ensures !Stops(true, calls, m) {
      if m >= 4 { assert calls[m / 4 * 4].items == [d]; }
    }
    assert FailureWindow(calls, 4 * n + 4);
    CallsMadeUnique(true, calls, 4 * n + 5);
  }

  // ---- sleeping --------------------------------------------------------------------------------

  /** The sleep after call i, which raised: the closed-form delay of the failure count. */
  function SleepAfter(calls: seq<Call>, i: nat, random: nat -> Draw): real
    requires i < |calls|
  {
    Jittered(Capped(BASE_DELAY, MAX_DELAY, Failures(calls, i + 1)), random(i))
  }

  /** Every sleep is at least its delay, under a quarter more, and so under 75 seconds; after a
      yield the delay is one second again. */
  lemma SleepBounds(calls: seq<Call>, i: nat, random: nat -> Draw)
    requires i < |calls|
    ensures var d := Capped(BASE_DELAY, MAX_DELAY, Failures(calls, i + 1));
            0.0 < d <= SleepAfter(calls, i, random) < 1.25 * d <= 75.0
    ensures calls[i].items != [] ==> 1.0 <= SleepAfter(calls, i, random) < 1.25
  {
    CappedPositive(BASE_DELAY, MAX_DELAY, Failures(calls, i + 1));
    JitterBounds(Capped(BASE_DELAY, MAX_DELAY, Failures(calls, i + 1)), random(i));
    if calls[i].items != [] { FirstDelays(); }
  }

  lemma FirstDelays()
    ensures Capped(BASE_DELAY, MAX_DELAY, 1) == 1.0 && Capped(BASE_DELAY, MAX_DELAY, 2) == 2.0
    ensures Capped(BASE_DELAY, MAX_DELAY, 3) == 4.0 && Capped(BASE_DELAY, MAX_DELAY, 4) == 8.0
  {
    assert Pow2(0) == 1.0;
    assert Pow2(1) == 2.0 * Pow2(0);
    assert Pow2(2) == 2.0 * Pow2(1);
    assert Pow2(3) == 2.0 * Pow2(2);
  }

  /** The counter runs from one to five over the calls that lead to the hook. */
  lemma CountsToFive(calls: seq<Call>, n: nat)
    requires n < |calls| && CallsMade(true, calls) == n + 1 && ExitOf(true, calls) == ShutdownRequested
    ensures n >= 4
    ensures Failures(calls, n - 3) == 1 && Failures(calls, n - 2) == 2
    ensures Failures(calls, n - 1) == 3 && Failures(calls, n) == 4
  {
    ShutdownExactly(true, calls, n);
    assert Failures(calls, n) < MAX_FAILURES by {
      assert !FailureWindow(calls, n - 1);
      CountIsWindow(calls, n - 1);
    }
    CountIsWindow(calls, n);
    var f := Failures(calls, n - 3);
    assert Failures(calls, n - 2) == f + 1;
    assert Failures(calls, n - 1) == f + 2;
    assert Failures(calls, n) == f + 3;
  }

  /** Before the hook is called the loop has slept four times since the window began, between
      15 and 18.75 seconds in total. */
  lemma SleepBeforeShutdown(calls: seq<Call>, n: nat, random: nat -> Draw)
    requires n < |calls| && CallsMade(true, calls) == n + 1 && ExitOf(true, calls) == ShutdownRequested
    ensures n >= 4
    ensures 15.0 <= SleepAfter(calls, n - 4, random) + SleepAfter(calls, n - 3, random)
                    + SleepAfter(calls, n - 2, random) + SleepAfter(calls, n - 1, random) < 18.75
  {
    CountsToFive(calls, n);
    FirstDelays();
    SleepBounds(calls, n - 4, random);
    SleepBounds(calls, n - 3, random);
    SleepBounds(calls, n - 2, random);
    SleepBounds(calls, n - 1, random);
  }

  /** The sleeps after the first n calls, all of which raised. */
  function Sleeps(calls: seq<Call>, n: nat, random: nat -> Draw): seq<real>
    requires n <= |calls|
  {
    if n == 0 then [] else Sleeps(calls, n - 1, random) + [SleepAfter(calls, n - 1, random)]
  }

  lemma {:induction false} SleepsAt(calls: seq<Call>, n: nat, random: nat -> Draw)
    requires n <= |calls|
    ensures |Sleeps(calls, n, random)| == n
    ensures forall i :: 0 <= i < n ==> Sleeps(calls, n, random)[i] == SleepAfter(calls, i, random)
  {
    if n == 0 {
    } else {
      SleepsAt(calls, n - 1, random);
    }
  }

  /** Every sleep of the loop is positive and under 75 seconds, and there is one for every call
      that did not stop it. */
  lemma AllSleepsBounded(enabled: bool, calls: seq<Call>, random: nat -> Draw)
    ensures var sleeps := Sleeps(calls, SleepCount(enabled, calls), random);
            |sleeps| == SleepCount(enabled, calls) && forall i :: 0 <= i < |sleeps| ==> 0.0 < sleeps[i] < 75.0
  {
    var n := SleepCount(enabled, calls);
    SleepsAt(calls, n, random);
    forall i | 0 <= i < n ensures 0.0 < Sleeps(calls, n, random)[i] < 75.0 {
      SleepBounds(calls, i, random);
    }
  }

  /** What the loop's two variables say after call n raised, when no call before stopped it:
      the counter is the consecutive failures and decides whether to stop, the delay is the
      closed form of the counter. */
  lemma AfterFailure(enabled: bool, calls: seq<Call>, n: nat, failures: nat, delay: real, random: nat -> Draw)
    requires n < |calls| && calls[n].ending.Raised? && GoesOn(enabled, calls, n)
    requires failures == if calls[n].items != [] then 1 else Failures(calls, n) + 1
    requires delay == Doubled(BASE_DELAY, MAX_DELAY, failures)
    ensures failures == Failures(calls, n + 1)
    ensures enabled && failures >= MAX_FAILURES ==>
              && CallsMade(enabled, calls) == n + 1 && SleepCount(enabled, calls) == n
              && ExitOf(enabled, calls) == ShutdownRequested
    ensures !(enabled && failures >= MAX_FAILURES) ==>
              && GoesOn(enabled, calls, n + 1)
              && Sleeps(calls, n, random) + [Jittered(delay, random(n))] == Sleeps(calls, n + 1, random)
  {
    GoesOnMeans(enabled, calls, n);
    forall j | 0 <= j < n ensures calls[j].ending.Raised? { assert !Stops(enabled, calls, j); }
    CountIsWindow(calls, n);
    DoubledIsCapped(BASE_DELAY, MAX_DELAY, failures);
    if enabled && failures >= MAX_FAILURES { StopsAt(enabled, calls, n); }
  }

  /** The loop's variables before it makes call n. */
  predicate LoopAt(enabled: bool, calls: seq<Call>, n: nat, failures: nat, delay: real,
    sleeps: seq<real>, random: nat -> Draw)
    requires n <= |calls|
  {
    && GoesOn(enabled, calls, n)
    && failures == Failures(calls, n)
    && delay == Doubled(BASE_DELAY, MAX_DELAY, failures + 1)
    && sleeps == Sleeps(calls, n, random)
  }

  /** What call n does to them: a call that does not raise, or whose counted failure is the
      fifth in a row with shutdown enabled, is the last one; any other is followed by the sleep
      the trace says and leaves the variables right for the next call. */
  lemma LoopAdvances(enabled: bool, calls: seq<Call>, n: nat, failures: nat, delay: real,
    sleeps: seq<real>, random: nat -> Draw)
    requires n < |calls| && LoopAt(enabled, calls, n, failures, delay, sleeps, random)
    ensures var counted := (if calls[n].items != [] then 0 else failures) + 1;
            var slept := if calls[n].items != [] then BASE_DELAY else delay;
            var last := calls[n].ending != Raised || (enabled && counted >= MAX_FAILURES);
            && (last ==>
                  && CallsMade(enabled, calls) == n + 1 && SleepCount(enabled, calls) == n
                  && ExitOf(enabled, calls) == match calls[n].ending
                       case Returned => Closed case InFlight => StillRunning case Raised => ShutdownRequested)
            && (!last ==>
                  LoopAt(enabled, calls, n + 1, counted, Min(slept * 2.0, MAX_DELAY),
                         sleeps + [Jittered(slept, random(n))], random))
  {
    if calls[n].ending == Raised {
      var counted := (if calls[n].items != [] then 0 else failures) + 1;
      AfterFailure(enabled, calls, n, counted, if calls[n].items != [] then BASE_DELAY else delay, random);
    } else {
      StopsAt(enabled, calls, n);
    }
  }

  // ---- what the calls deliver -------------------------------------------------------------------

  /** What recording has achieved: the batches accepted, in order, and when the last batch that
      converted was recorded. */
  datatype Progress = Progress(accepted: seq<seq<Cells>>, lastAt: Option<int>)

  function RecordOne(p: Progress, d: Delivery): Progress {
    match d.batch
    case Convertible(rows) => Progress(p.accepted + [rows], Some(d.at))
    case Malformed(_) => p
  }

  function RecordItems(p: Progress, items: seq<Delivery>, n: nat): Progress
    requires n <= |items|
  {
    if n == 0 then p else RecordOne(RecordItems(p, items, n - 1), items[n - 1])
  }

  /** After every batch of the first n calls has been recorded once, in order. */
  function RecordCalls(p: Progress, calls: seq<Call>, n: nat): Progress
    requires n <= |calls|
  {
    if n == 0 then p
    else RecordItems(RecordCalls(p, calls, n - 1), calls[n - 1].items, |calls[n - 1].items|)
  }

  /** The batches that convert, in order. */
  function Accepted(items: seq<Delivery>): seq<seq<Cells>> {
    if items == [] then []
    else Accepted(items[..|items| - 1]) +
         match items[|items| - 1].batch case Convertible(rows) => [rows] case Malformed(_) => []
  }

  /** Everything the first n calls yield that converts, in order. */
  function AcceptedBatches(calls: seq<Call>, n: nat): seq<seq<Cells>>
    requires n <= |calls|
  {
    if n == 0 then [] else AcceptedBatches(calls, n - 1) + Accepted(calls[n - 1].items)
  }

  lemma {:induction false} RecordItemsAccepts(p: Progress, items: seq<Delivery>, n: nat)
    requires n <= |items|
    ensures RecordItems(p, items, n).accepted == p.accepted + Accepted(items[..n])
  {
    if n == 0 {
    } else {
      RecordItemsAccepts(p, items, n - 1);
      assert items[..n][..n - 1] == items[..n - 1];
    }
  }

  /** Recording accepts exactly the batches that convert, each once and in order. */
  lemma {:induction false} RecordCallsAccepts(p: Progress, calls: seq<Call>, n: nat)
    requires n <= |calls|
    ensures RecordCalls(p, calls, n).accepted == p.accepted + AcceptedBatches(calls, n)
  {
    if n == 0 {
    } else {
      var items := calls[n - 1].items;
      RecordCallsAccepts(p, calls, n - 1);
      RecordItemsAccepts(RecordCalls(p, calls, n - 1), items, |items|);
      assert items[..|items|] == items;
    }
  }
}
