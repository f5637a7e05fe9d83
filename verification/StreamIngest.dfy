/** The ingest supervisor: the class StreamIngestService of services/stream_ingest.py. */
module StreamIngest {
  import opened Lists
  import opened Merge
  import opened Oracle
  import opened LsmStore
  import opened Plain
  import opened Backoff
  import opened IngestTrace
  import opened Watchdog

  /** What follows a call of batches(): the loop is left, or sleeps before the next one. */
  datatype AfterCall = Leaves(exit: Exit) | Sleeps(seconds: real)

  class StreamIngestService {
    const store: LSMStore
    /** ingest_max_disconnect_seconds; None disables all automatic shutdown. */
    const maxDisconnect: Option<real>
    var lastBatchAt: Option<int>
    var rowsTotal: nat
    /** How often the shutdown hook has been called. */
    var shutdownRequests: nat

    /** Every batch accepted, and what the store had ingested before the first. */
    ghost var accepted: seq<seq<Cells>>
    ghost const before: seq<seq<Cells>>
    ghost const seqnoBefore: nat

    ghost predicate Valid() reads `accepted, `rowsTotal, store {
      && store.Valid()
      && store.batches == before + accepted
      && store.seqno == seqnoBefore + rowsTotal
    }

    ghost function Recorded(): Progress reads `accepted, `lastBatchAt { Progress(accepted, lastBatchAt) }

    constructor (store: LSMStore, maxDisconnect: Option<real>)
      requires store.Valid()
      ensures Valid() && this.store == store && this.maxDisconnect == maxDisconnect
      ensures Recorded() == Progress([], None) && rowsTotal == 0 && shutdownRequests == 0
      ensures before == store.batches && seqnoBefore == store.seqno
    {
      this.store := store;
      this.maxDisconnect := maxDisconnect;
      lastBatchAt, rowsTotal, shutdownRequests := None, 0, 0;
      accepted, before, seqnoBefore := [], store.batches, store.seqno;
    }

    /** A batch that fails to convert leaves the store, the total and the time of the last
        batch as they were. */
    method RecordIngest(d: Delivery) returns (ok: bool)
      requires Valid()
      modifies `lastBatchAt, `rowsTotal, `accepted, store
      ensures Valid() && Recorded() == RecordOne(old(Recorded()), d)
      ensures ok == d.batch.Convertible?
      ensures !ok ==> rowsTotal == old(rowsTotal) && lastBatchAt == old(lastBatchAt) && unchanged(store)
      ensures ok ==> rowsTotal == old(rowsTotal) + |d.batch.rows| && lastBatchAt == Some(d.at)
    {
      ok := store.Ingest(d.batch);
      if !ok { return; }
      accepted := accepted + [d.batch.rows];
      lastBatchAt := Some(d.at);
      rowsTotal := rowsTotal + NumRows(d.batch);
    }

    /** The batches of one call: each is recorded, and each resets the failure count and the
        delay. */
    method RecordAll(items: seq<Delivery>, failuresBefore: nat, delayBefore: real) returns (failures: nat, delay: real)
      requires Valid()
      modifies `lastBatchAt, `rowsTotal, `accepted, store
      ensures Valid() && Recorded() == RecordItems(old(Recorded()), items, |items|)
      ensures items == [] ==> failures == failuresBefore && delay == delayBefore
      ensures items != [] ==> failures == 0 && delay == BASE_DELAY
    {
      failures, delay := failuresBefore, delayBefore;
      for j := 0 to |items|
        invariant Valid() && Recorded() == RecordItems(old(Recorded()), items, j)
        invariant if j == 0 then failures == failuresBefore && delay == delayBefore
                  else failures == 0 && delay == BASE_DELAY
      {
        failures, delay := 0, BASE_DELAY;
        var ok := RecordIngest(items[j]);
      }
    }

    /** One pass of the loop: the batches of a call are recorded; a call that does not raise
        leaves the loop; one that raises is counted and either reaches the fifth failure in a
        row, which calls the hook if automatic shutdown is enabled, or sleeps and doubles the
        delay up to the cap. */
    method OneCall(call: Call, failuresBefore: nat, delayBefore: real, draw: Draw)
      returns (failures: nat, delay: real, next: AfterCall)
      requires Valid()
      modifies this, store
      ensures Valid() && Recorded() == RecordItems(old(Recorded()), call.items, |call.items|)
      ensures shutdownRequests == old(shutdownRequests) + if next == Leaves(ShutdownRequested) then 1 else 0
      ensures call.ending == Returned ==> next == Leaves(Closed)
      ensures call.ending == InFlight ==> next == Leaves(StillRunning)
      ensures call.ending == Raised ==>
                var slept := if call.items != [] then BASE_DELAY else delayBefore;
                && failures == (if call.items != [] then 0 else failuresBefore) + 1
                && next == (if maxDisconnect.Some? && failures >= MAX_FAILURES then Leaves(ShutdownRequested)
                            else Sleeps(Jittered(slept, draw)))
                && (next.Sleeps? ==> delay == Min(slept * 2.0, MAX_DELAY))
    {
      failures, delay := RecordAll(call.items, failuresBefore, delayBefore);
      match call.ending {
        case Returned => next := Leaves(Closed);
        case InFlight => next := Leaves(StillRunning);
        case Raised =>
          failures := failures + 1;
          if maxDisconnect.Some? && failures >= MAX_FAILURES {
            shutdownRequests := shutdownRequests + 1;
            next := Leaves(ShutdownRequested);
          } else {
            next := Sleeps(Jittered(delay, draw));
            delay := Min(delay * 2.0, MAX_DELAY);
          }
      }
    }

    /** The loop, driven by the calls its consumer answers. It makes exactly the calls
        CallsMade says and ends as ExitOf says, records every batch those calls yielded once
        and in order, calls the hook once or not at all, and after each failed call sleeps
        the capped backoff of the failures in a row. */
    method IngestLoop(calls: seq<Call>, random: nat -> Draw) returns (made: nat, exit: Exit, sleeps: seq<real>)
      requires Valid()
      modifies this, store
      ensures Valid()
      ensures made == CallsMade(maxDisconnect.Some?, calls)
      ensures exit == ExitOf(maxDisconnect.Some?, calls)
      ensures Recorded() == RecordCalls(old(Recorded()), calls, made)
      ensures shutdownRequests == old(shutdownRequests) + if exit == ShutdownRequested then 1 else 0
      ensures sleeps == IngestTrace.Sleeps(calls, SleepCount(maxDisconnect.Some?, calls), random)
    {
      var failures, delay := 0, BASE_DELAY;
      var shutdownOnFailure := maxDisconnect.Some?;
      made, sleeps := 0, [];
      while made < |calls|
        invariant Valid() && made <= |calls|
        invariant LoopAt(shutdownOnFailure, calls, made, failures, delay, sleeps, random)
        invariant Recorded() == RecordCalls(old(Recorded()), calls, made)
        invariant shutdownRequests == old(shutdownRequests)
      {
        LoopAdvances(shutdownOnFailure, calls, made, failures, delay, sleeps, random);
        var next;
        failures, delay, next := OneCall(calls[made], failures, delay, random(made));
        match next {
          case Leaves(how) => return made + 1, how, sleeps;
          case Sleeps(seconds) => sleeps := sleeps + [seconds];
        }
        made := made + 1;
      }
      NeverStops(shutdownOnFailure, calls);
      exit := StillRunning;
    }

    /** The watchdog, driven by the samples it takes until it is cancelled: it calls the hook
        at the first sample that fires and then stops, and not at all if none does. */
    method DisconnectWatchdog(samples: seq<Sample>) returns (polls: nat, fired: bool)
      requires maxDisconnect.Some? && ClockAscends(samples)
      modifies `shutdownRequests
      ensures polls <= |samples| && shutdownRequests == old(shutdownRequests) + if fired then 1 else 0
      ensures fired ==> polls > 0 && Fires(samples, maxDisconnect.value, polls - 1)
      ensures fired ==> forall i :: 0 <= i < polls && samples[i].at > samples[polls - 1].at - maxDisconnect.value ==>
                samples[i].state != CONNECTED
      ensures forall n :: 0 <= n < polls - 1 ==> !Fires(samples, maxDisconnect.value, n)
      ensures !fired ==> polls == |samples| && forall n :: 0 <= n < polls ==> !Fires(samples, maxDisconnect.value, n)
    {
      var threshold := maxDisconnect.value;
      var disconnectedSince: Option<real> := None;
      ghost var first: nat := 0;
      polls := 0;
      while polls < |samples|
        invariant polls <= |samples| && shutdownRequests == old(shutdownRequests)
        invariant forall n :: 0 <= n < polls ==> !Fires(samples, threshold, n)
        invariant first <= polls
        invariant forall i :: first <= i < polls ==> samples[i].state != CONNECTED
        invariant first > 0 ==> samples[first - 1].state == CONNECTED
        invariant disconnectedSince == if first < polls then Some(samples[first].at) else None
      {
        var sample := samples[polls];
        polls := polls + 1;
        if sample.state == CONNECTED {
          disconnectedSince := None;
          first := polls;
          continue;
        }
        var now := sample.at;
        if disconnectedSince.None? {
          disconnectedSince := Some(now);
        } else if now - disconnectedSince.value >= threshold {
          assert Disconnected(samples, first, polls - 1);
          ReconnectPreventsFiring(samples, threshold, polls - 1);
          shutdownRequests := shutdownRequests + 1;
          return polls, true;
        }
      }
      fired := false;
    }

    /** The watchdog runs only when a threshold is set. */
    method Watch(samples: seq<Sample>) returns (fired: bool)
      requires ClockAscends(samples)
      modifies `shutdownRequests
      ensures fired <==> maxDisconnect.Some? && exists n :: 0 <= n < |samples| && Fires(samples, maxDisconnect.value, n)
      ensures shutdownRequests == old(shutdownRequests) + if fired then 1 else 0
    {
      fired := false;
      if maxDisconnect.Some? {
        var polls;
        polls, fired := DisconnectWatchdog(samples);
      }
    }

    /** What the data endpoint serves. */
    method GetData(limit: int) returns (rows: seq<Cells>, total: nat)
      requires Valid()
      ensures (rows, total) == Answer(Fold(store.keyColumns, Flatten(before + accepted)), Some(limit))
      ensures Shows(store.keyColumns, Flatten(before + accepted), limit, rows, total)
    {
      rows, total := store.Query(limit);
    }
  }

  // ---- an outage -----------------------------------------------------------------------------------

  /** Any run of the watchdog that polls as it should and lasts to the deadline of an outage calls
      the hook, once, at a poll before the deadline; with no slack that is within twice the
      threshold. */
  method WatchOutage(service: StreamIngestService, samples: nat -> Sample, count: nat,
                     ghost start: real, ghost slack: real, ghost t: real)
    returns (polls: nat, fired: bool)
    requires service.maxDisconnect.Some? && service.maxDisconnect.value > 0.0 && slack >= 0.0 && start <= t
    requires var threshold := service.maxDisconnect.value;
             PollsEvery(samples, start, if threshold <= 10.0 then threshold / 2.0 else 5.0, slack)
    requires forall i: nat :: samples(i).at >= t ==> samples(i).state != CONNECTED
    requires count > 0 && samples(count - 1).at >= Deadline(service.maxDisconnect.value, slack, t)
    modifies service`shutdownRequests
    ensures fired && service.shutdownRequests == old(service.shutdownRequests) + 1
    ensures 0 < polls <= count && samples(polls - 1).at < Deadline(service.maxDisconnect.value, slack, t)
    ensures samples(polls - 1).at < t + service.maxDisconnect.value + 10.0 + 2.0 * slack
    ensures samples(polls - 1).at < t + 2.0 * service.maxDisconnect.value + 2.0 * slack
  {
    var threshold := service.maxDisconnect.value;
    SamplesAscend(samples, start, PollInterval(threshold), slack, count);
    ghost var n := OutageFires(samples, threshold, start, slack, t, count);
    var seen := Prefix(samples, count);
    polls, fired := service.DisconnectWatchdog(seen);
    assert polls - 1 <= n;
    assert seen[polls - 1].at <= seen[n].at;
  }
}
