/** From the transport to the reader: store, supervisor and transport composed. */
module EndToEnd {
  import opened Lists
  import opened Merge
  import opened Oracle
  import opened Store
  import opened LsmStore
  import opened Plain
  import opened Backoff
  import opened IngestTrace
  import opened StreamIngest
  import opened ConsumerLog
  import FlightConsumer
  import SolaceConsumer

  /** From consumer to reader, wired as main.py wires them: whatever the consumer does, however
      far the loop has come, a query answers as the plain map of every batch yielded so far
      that converted, in order; the row total is the rows of those batches and the store's next
      sequence number. */
  method ServeTrace(flushRows: int, compactionRuns: int, keyColumns: seq<string>, maxDisconnect: Option<real>,
                    calls: seq<Call>, random: nat -> Draw, limit: int)
    returns (rows: seq<Cells>, total: nat, rowsTotal: nat, nextSeqno: nat)
    ensures var accepted := Flatten(AcceptedBatches(calls, CallsMade(maxDisconnect.Some?, calls)));
            && (rows, total) == Answer(Fold(KeyColumnsOr(Some(keyColumns)), accepted), Some(limit))
            && Shows(if keyColumns == [] then ["id"] else keyColumns, accepted, limit, rows, total)
            && rowsTotal == nextSeqno == |accepted|
  {
    var store := new LSMStore(flushRows, compactionRuns, Some(keyColumns));
    var service := new StreamIngestService(store, maxDisconnect);
    var made, exit, sleeps := service.IngestLoop(calls, random);
    rows, total := service.GetData(limit);
    rowsTotal, nextSeqno := service.rowsTotal, store.seqno;
    RecordCallsAccepts(Progress([], None), calls, made);
    assert service.before + service.accepted == AcceptedBatches(calls, made);
    RunInv(store.Settings(), store.batches);
  }

  // ---- the Flight transport -------------------------------------------------------------------

  /** The calls a run of the Flight machine answers are calls the loop makes: the machine's
      counter stops it where the trace says, and they yield what the machine yields. */
  lemma FlightDrivesLoop(enabled: bool, events: seq<FlightConsumer.Event>)
    ensures var s := FlightConsumer.Steps(enabled, FlightConsumer.INITIAL, events);
            && CallsMade(enabled, s.log.calls) == |s.log.calls|
            && AcceptedBatches(s.log.calls, |s.log.calls|) == Accepted(s.log.yielded)
            && (s.ingest.Exited? ==> ExitOf(enabled, s.log.calls) == s.ingest.exit)
  {
    FlightConsumer.AlwaysInv(enabled, events);
    var s := FlightConsumer.Steps(enabled, FlightConsumer.INITIAL, events);
    LogDrivesLoop(enabled, s.log, FlightConsumer.PhaseOf(s.ingest));
  }

  /** Whatever the server, close() and the ingest thread interleave, once the loop has recorded
      what the generator has yielded a query shows the rows of exactly the chunks that arrived
      on a stream nobody had cancelled and converted, over all calls and in order. What readers
      see meanwhile is said in module Serving. */
  method ServeFlight(flushRows: int, compactionRuns: int, keyColumns: seq<string>, maxDisconnect: Option<real>,
                     events: seq<FlightConsumer.Event>, random: nat -> Draw, limit: int)
    returns (rows: seq<Cells>, total: nat)
    ensures var s := FlightConsumer.Steps(maxDisconnect.Some?, FlightConsumer.INITIAL, events);
            (rows, total) == Answer(Fold(KeyColumnsOr(Some(keyColumns)), Flatten(Accepted(s.log.yielded))), Some(limit))
    ensures var received := FlightConsumer.Received(maxDisconnect.Some?, events);
            Shows(if keyColumns == [] then ["id"] else keyColumns, Flatten(Accepted(received)), limit, rows, total)
  {
    FlightConsumer.YieldedIsReceived(maxDisconnect.Some?, events);
    var s := FlightConsumer.Steps(maxDisconnect.Some?, FlightConsumer.INITIAL, events);
    FlightDrivesLoop(maxDisconnect.Some?, events);
    var rowsTotal, nextSeqno;
    rows, total, rowsTotal, nextSeqno :=
      ServeTrace(flushRows, compactionRuns, keyColumns, maxDisconnect, s.log.calls, random, limit);
  }

  // ---- the Solace transport -------------------------------------------------------------------

  /** The calls a run of the Solace machine answers are calls the loop makes: none but the last
      stops it, and they yield what the machine yields. */
  lemma SolaceDrivesLoop(enabled: bool, events: seq<SolaceConsumer.Event>)
    ensures var s := SolaceConsumer.Steps(enabled, SolaceConsumer.INITIAL, events);
            && CallsMade(enabled, s.log.calls) == |s.log.calls|
            && AcceptedBatches(s.log.calls, |s.log.calls|) == Accepted(s.log.yielded)
            && (s.ingest.Exited? ==> ExitOf(enabled, s.log.calls) == s.ingest.exit)
  {
    SolaceConsumer.AlwaysInv(enabled, events);
    var s := SolaceConsumer.Steps(enabled, SolaceConsumer.INITIAL, events);
    LogDrivesLoop(enabled, s.log, SolaceConsumer.PhaseOf(s.ingest));
  }

  /** Whatever the callbacks, close() and the ingest thread interleave, once the loop has exited
      cleanly a query shows the rows of exactly the messages that arrived before close() put its
      first sentinel and converted, in order; until then of a prefix of them. */
  method ServeSolace(flushRows: int, compactionRuns: int, keyColumns: seq<string>, maxDisconnect: Option<real>,
                     events: seq<SolaceConsumer.Event>, random: nat -> Draw, limit: int)
    returns (rows: seq<Cells>, total: nat)
    ensures var s := SolaceConsumer.Steps(maxDisconnect.Some?, SolaceConsumer.INITIAL, events);
            && s.log.yielded <= SolaceConsumer.Messages(events)
            && (s.ingest == SolaceConsumer.Exited(Closed) ==> s.log.yielded == SolaceConsumer.Messages(events))
            && (rows, total) ==
               Answer(Fold(KeyColumnsOr(Some(keyColumns)), Flatten(Accepted(s.log.yielded))), Some(limit))
            && Shows(if keyColumns == [] then ["id"] else keyColumns,
                     Flatten(Accepted(s.log.yielded)), limit, rows, total)
  {
    var s := SolaceConsumer.Steps(maxDisconnect.Some?, SolaceConsumer.INITIAL, events);
    SolaceDrivesLoop(maxDisconnect.Some?, events);
    SolaceConsumer.HandOffIsFifo(maxDisconnect.Some?, events);
    var rowsTotal, nextSeqno;
    rows, total, rowsTotal, nextSeqno :=
      ServeTrace(flushRows, compactionRuns, keyColumns, maxDisconnect, s.log.calls, random, limit);
  }
}
