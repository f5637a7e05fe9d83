/** What the ingest loop and a consumer do to each other, as a step machine sees it.

A transport's step machine keeps the log of the calls its consumer has answered and the
loop's own failure counter. The counter alone decides when the loop gives up, as the loop of
services/stream_ingest.py does; that this agrees with what the trace of calls says is proved
here, once for both transports. */
module ConsumerLog {
  import opened IngestTrace

  /** The calls so far, the last one possibly in flight; everything they yielded; and the
      loop's counter. */
  datatype Log = Log(calls: seq<Call>, yielded: seq<Delivery>, failures: nat)

  const NO_CALLS := Log([], [], 0)

  /** Where the loop is: about to call or sleeping, inside a call, handling its exception, or
      out. */
  datatype Phase = Between | Running | Raising | Left(exit: Exit)

  function WithLast(l: Log, last: Call): Log {
    if l.calls == [] then l else l.(calls := l.calls[..|l.calls| - 1] + [last])
  }

  function Begin(l: Log): Log { l.(calls := l.calls + [Call([], InFlight)]) }

  /** A batch reaches the loop, which resets its counter. */
  function Yield(l: Log, d: Delivery): Log {
    if l.calls == [] then l
    else
      var last := l.calls[|l.calls| - 1];
      WithLast(l, last.(items := last.items + [d])).(yielded := l.yielded + [d], failures := 0)
  }

  function End(l: Log, ending: Ending): Log {
    if l.calls == [] then l else WithLast(l, l.calls[|l.calls| - 1].(ending := ending))
  }

  /** The except clause counts the failure. */
  function Count(l: Log): Log { l.(failures := l.failures + 1) }

  predicate GivesUp(enabled: bool, l: Log) { enabled && l.failures >= MAX_FAILURES }

  /** Everything the first n calls yield. */
  function Items(calls: seq<Call>, n: nat): seq<Delivery>
    requires n <= |calls|
  {
    if n == 0 then [] else Items(calls, n - 1) + calls[n - 1].items
  }

  // ---- the invariant -------------------------------------------------------------------------

  /** All calls but the last raised without stopping the loop, together they yielded what has
      been yielded, and the counter is the trace's count of failures in a row: before the last
      call's own failure is counted, while it runs or its exception is being handled. */
  ghost predicate LogInv(enabled: bool, l: Log, p: Phase) {
    && p != Left(StillRunning)
    && Items(l.calls, |l.calls|) == l.yielded
    && (forall m :: 0 <= m < |l.calls| - 1 ==> !Stops(enabled, l.calls, m))
    && (l.calls == [] ==> p == Between && l.failures == 0)
    && (l.calls != [] ==> LastCallInv(enabled, l, p))
  }

  ghost predicate LastCallInv(enabled: bool, l: Log, p: Phase)
    requires l.calls != []
  {
    var n := |l.calls| - 1;
    var last := l.calls[n];
    match p
    case Running => last.ending == InFlight && l.failures == Uncounted(l.calls)
    case Raising => last.ending == Raised && l.failures == Uncounted(l.calls)
    case Between => !Stops(enabled, l.calls, n) && l.failures == Failures(l.calls, n + 1)
    case Left(exit) =>
      if exit == ShutdownRequested then last.ending == Raised && Stops(enabled, l.calls, n) else last.ending == Returned
  }

  /** The counter during the last call. */
  function Uncounted(calls: seq<Call>): nat
    requires calls != []
  {
    if calls[|calls| - 1].items != [] then 0 else Failures(calls, |calls| - 1)
  }

  lemma {:induction false} PrefixSame(a: seq<Call>, b: seq<Call>, n: nat)
    requires n <= |a| && n <= |b| && a[..n] == b[..n]
    ensures Items(a, n) == Items(b, n) && Failures(a, n) == Failures(b, n)
  {
    if n == 0 {
    } else {
      assert a[n - 1] == a[..n][n - 1] == b[n - 1];
      assert a[..n - 1] == a[..n][..n - 1] == b[..n - 1];
      PrefixSame(a, b, n - 1);
    }
  }

  lemma StopsSame(enabled: bool, a: seq<Call>, b: seq<Call>, n: nat)
    requires n < |a| && n < |b| && a[..n + 1] == b[..n + 1]
    ensures Stops(enabled, a, n) == Stops(enabled, b, n)
  {
    assert forall j :: 0 <= j <= n ==> a[j] == a[..n + 1][j] == b[j];
  }

  lemma EarlierSame(enabled: bool, a: seq<Call>, b: seq<Call>, n: nat)
    requires n <= |a| && n <= |b| && a[..n] == b[..n]
    requires forall m :: 0 <= m < n ==> !Stops(enabled, a, m)
    ensures forall m :: 0 <= m < n ==> !Stops(enabled, b, m)
  {
    forall m | 0 <= m < n ensures !Stops(enabled, b, m) {
      assert a[..m + 1] == a[..n][..m + 1] == b[..m + 1];
      StopsSame(enabled, a, b, m);
    }
  }

  lemma BeginKeepsInv(enabled: bool, l: Log)
    requires LogInv(enabled, l, Between)
    ensures LogInv(enabled, Begin(l), Running)
  {
    var t, n := Begin(l), |l.calls|;
    assert t.calls[..n] == l.calls[..n];
    PrefixSame(l.calls, t.calls, n);
    EarlierSame(enabled, l.calls, t.calls, n);
  }

  /** Replacing the last call keeps what the calls before it did. */
  lemma LastCallChanges(enabled: bool, l: Log, p: Phase, last: Call)
    requires LogInv(enabled, l, p) && l.calls != []
    ensures var t, n := WithLast(l, last), |l.calls| - 1;
            && |t.calls| == n + 1 && t.calls[n] == last
            && Items(t.calls, n + 1) == Items(l.calls, n) + last.items
            && Failures(t.calls, n) == Failures(l.calls, n)
            && forall m :: 0 <= m < n ==> !Stops(enabled, t.calls, m)
  {
    var t, n := WithLast(l, last), |l.calls| - 1;
    assert t.calls[..n] == l.calls[..n];
    PrefixSame(l.calls, t.calls, n);
    EarlierSame(enabled, l.calls, t.calls, n);
  }

  lemma YieldKeepsInv(enabled: bool, l: Log, d: Delivery)
    requires LogInv(enabled, l, Running)
    ensures LogInv(enabled, Yield(l, d), Running)
    ensures Yield(l, d).yielded == l.yielded + [d]
  {
    var n := |l.calls| - 1;
    var last := l.calls[n];
    LastCallChanges(enabled, l, Running, last.(items := last.items + [d]));
    assert Items(l.calls, n) + (last.items + [d]) == (Items(l.calls, n) + last.items) + [d];
  }

  lemma RaiseKeepsInv(enabled: bool, l: Log)
    requires LogInv(enabled, l, Running)
    ensures LogInv(enabled, End(l, Raised), Raising) && End(l, Raised).yielded == l.yielded
  {
    LastCallChanges(enabled, l, Running, l.calls[|l.calls| - 1].(ending := Raised));
  }

  lemma ReturnKeepsInv(enabled: bool, l: Log)
    requires LogInv(enabled, l, Running)
    ensures LogInv(enabled, End(l, Returned), Left(Closed)) && End(l, Returned).yielded == l.yielded
  {
    LastCallChanges(enabled, l, Running, l.calls[|l.calls| - 1].(ending := Returned));
  }

  /** Counting decides as the trace does: the counter reaches five exactly when the calls end a
      failure window. */
  lemma CountKeepsInv(enabled: bool, l: Log)
    requires LogInv(enabled, l, Raising)
    ensures LogInv(enabled, Count(l), if GivesUp(enabled, Count(l)) then Left(ShutdownRequested) else Between)
  {
    var n := |l.calls| - 1;
    forall j | 0 <= j < n ensures l.calls[j].ending.Raised? { assert !Stops(enabled, l.calls, j); }
    CountIsWindow(l.calls, n);
  }

  /** What one step of a transport machine may do to the log. */
  datatype Move = Nothing | Begins | Yields(d: Delivery) | Ends(raised: bool) | Counts

  predicate Allowed(p: Phase, m: Move) {
    match m
    case Nothing => true
    case Begins => p == Between
    case Yields(_) => p == Running
    case Ends(_) => p == Running
    case Counts => p == Raising
  }

  function Moved(l: Log, m: Move): Log {
    match m
    case Nothing => l
    case Begins => Begin(l)
    case Yields(d) => Yield(l, d)
    case Ends(raised) => End(l, if raised then Raised else Returned)
    case Counts => Count(l)
  }

  function PhaseAfter(enabled: bool, l: Log, p: Phase, m: Move): Phase {
    match m
    case Nothing => p
    case Begins => Running
    case Yields(_) => Running
    case Ends(raised) => if raised then Raising else Left(Closed)
    case Counts => if GivesUp(enabled, Count(l)) then Left(ShutdownRequested) else Between
  }

  lemma MoveKeepsInv(enabled: bool, l: Log, p: Phase, m: Move)
    requires LogInv(enabled, l, p) && Allowed(p, m)
    ensures LogInv(enabled, Moved(l, m), PhaseAfter(enabled, l, p, m))
    ensures Moved(l, m).yielded == if m.Yields? then l.yielded + [m.d] else l.yielded
  {
    match m
    case Nothing =>
    case Begins => BeginKeepsInv(enabled, l);
    case Yields(d) => YieldKeepsInv(enabled, l, d);
    case Ends(raised) => if raised { RaiseKeepsInv(enabled, l); } else { ReturnKeepsInv(enabled, l); }
    case Counts => CountKeepsInv(enabled, l);
  }

  // ---- what the loop makes of it -----------------------------------------------------------------

  lemma {:induction false} AcceptedAppend(a: seq<Delivery>, b: seq<Delivery>)
    ensures Accepted(a + b) == Accepted(a) + Accepted(b)
  {
    if b == [] {
      assert a + b == a;
    } else {
      AcceptedAppend(a, b[..|b| - 1]);
      assert (a + b)[..|a + b| - 1] == a + b[..|b| - 1];
    }
  }

  lemma {:induction false} AcceptedOfItems(calls: seq<Call>, n: nat)
    requires n <= |calls|
    ensures AcceptedBatches(calls, n) == Accepted(Items(calls, n))
  {
    if n == 0 {
    } else {
      AcceptedOfItems(calls, n - 1);
      AcceptedAppend(Items(calls, n - 1), calls[n - 1].items);
    }
  }

  /** The logged calls are exactly those the loop makes when driven by them, it is left as the
      machine left it, and it accepts what was yielded. */
  lemma LogDrivesLoop(enabled: bool, l: Log, p: Phase)
    requires LogInv(enabled, l, p)
    ensures CallsMade(enabled, l.calls) == |l.calls|
    ensures p.Left? ==> ExitOf(enabled, l.calls) == p.exit
    ensures AcceptedBatches(l.calls, |l.calls|) == Accepted(l.yielded)
  {
    CallsMadeUnique(enabled, l.calls, |l.calls|);
    AcceptedOfItems(l.calls, |l.calls|);
  }
}
