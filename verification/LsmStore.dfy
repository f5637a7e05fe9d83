/** The stream store: the class LSMStore of persistence/stream_store/lsm_store.py. */
module LsmStore {
  import opened Lists
  import opened Merge
  import opened Oracle
  import opened Store
  import opened Plain

  /** A record batch, or one that cannot be turned into a frame. */
  datatype Batch = Convertible(rows: seq<Cells>) | Malformed(height: nat)

  function NumRows(batch: Batch): nat {
    match batch case Convertible(rows) => |rows| case Malformed(height) => height
  }

  const DEFAULT_KEY := ["id"]

  /** No key columns, or an empty list of them, mean the default. */
  function KeyColumnsOr(configured: Option<seq<string>>): seq<string> {
    if configured.None? || configured.value == [] then DEFAULT_KEY else configured.value
  }

  class LSMStore {
    const flushRows: int
    const compactionRuns: int
    const keyColumns: seq<string>
    var seqno: nat
    // the writer's own working set
    var memtable: seq<Frame>
    var memtableRows: nat
    var runs: seq<Frame>
    // what readers see
    var snapshot: Snapshot

    /** Every batch ingested, in arrival order. */
    ghost var batches: seq<seq<Cells>>

    ghost function Settings(): Config { Config(flushRows, compactionRuns, keyColumns) }

    ghost function Value(): State reads this {
      State(seqno, memtable, memtableRows, runs, snapshot)
    }

    ghost predicate Valid() reads this {
      Value() == Run(Settings(), batches)
    }

    /** The map a reader should see. */
    ghost function Contents(): Live reads this { Fold(keyColumns, Flatten(batches)) }

    constructor (flushRows: int, compactionRuns: int, keyColumns: Option<seq<string>>)
      ensures Valid() && batches == []
      ensures this.flushRows == flushRows && this.compactionRuns == compactionRuns
      ensures this.keyColumns == KeyColumnsOr(keyColumns)
      ensures this.keyColumns == if keyColumns.Some? && keyColumns.value != [] then keyColumns.value else ["id"]
    {
      this.flushRows := flushRows;
      this.compactionRuns := compactionRuns;
      this.keyColumns := KeyColumnsOr(keyColumns);
      seqno := 0;
      memtable, memtableRows := [], 0;
      runs := [];
      snapshot := Snapshot([], []);
      batches := [];
    }

    /** A batch that cannot be converted changes nothing; any other is in the answer of every
        later query. */
    method Ingest(batch: Batch) returns (ok: bool)
      requires Valid()
      modifies this
      ensures Valid()
      ensures ok == batch.Convertible?
      ensures !ok ==> unchanged(this)
      ensures ok ==> batches == old(batches) + [batch.rows]
      ensures ok ==> Value() == Ingested(Settings(), old(Value()), batch.rows)
      ensures ok ==> seqno == old(seqno) + NumRows(batch)
      ensures ok ==> var full := old(memtableRows) + |batch.rows| >= flushRows;
                     var compact := full && old(|runs|) + 1 >= compactionRuns;
                     && memtableRows == (if full then 0 else old(memtableRows) + |batch.rows|)
                     && |memtable| == (if full then 0 else old(|memtable|) + 1)
                     && |runs| == (if compact then 1 else if full then old(|runs|) + 1 else old(|runs|))
                     && snapshot == Snapshot(runs, memtable)
    {
      if batch.Malformed? { return false; }
      ghost var was := Value();
      var n := |batch.rows|;
      var frame := Stamp(batch.rows, seqno);
      seqno := seqno + n;
      memtable := memtable + [frame];
      memtableRows := memtableRows + n;
      assert Value() == Appended(was, batch.rows);
      if memtableRows >= flushRows {
        Flush();
        if |runs| >= compactionRuns {
          Compact();
        }
      }
      assert Value() == Reorganised(Settings(), Appended(was, batch.rows));
      Publish(batches, batch.rows);
      batches := batches + [batch.rows];
      assert batches[..|batches| - 1] == old(batches);
      return true;
    }

    /** A flush moves the memtable into one new run and keeps every row in its place. */
    method Flush()
      modifies this`runs, this`memtable, this`memtableRows
      ensures Value() == Flushed(old(Value()))
      ensures Stored(Value()) == old(Stored(Value()))
      ensures memtable == [] && |runs| <= old(|runs|) + 1
    {
      FlushKeepsRows(Value());
      if memtable == [] { return; }
      runs := runs + [Flatten(memtable)];
      memtable := [];
      memtableRows := 0;
    }

    /** A compaction leaves at most one run, which merges with anything as the old runs do. */
    method Compact()
      modifies this`runs
      ensures Value() == Compacted(keyColumns, old(Value()))
      ensures |runs| <= 1
      ensures forall later ::
                Winners(keyColumns, Flatten(runs) + later) == Winners(keyColumns, old(Flatten(runs)) + later)
    {
      ghost var before := Flatten(runs);
      FlattenOne(Winners(keyColumns, before));
      forall later
        ensures Winners(keyColumns, Winners(keyColumns, before) + later) == Winners(keyColumns, before + later)
      {
        CompactionInvisible(keyColumns, before, later);
      }
      var merged := MergeFrame(keyColumns, runs);
      runs := if merged.Some? then [merged.value] else [];
    }

    /** Publishing at the end of an ingest hands readers the writer's frames: every query that
        reads the new snapshot answers as the plain map of the batches before and this one. */
    method Publish(ghost past: seq<seq<Cells>>, ghost rows: seq<Cells>)
      requires Value() == Reorganised(Settings(), Appended(Run(Settings(), past), rows))
      modifies this`snapshot
      ensures snapshot == Snapshot(runs, memtable)
      ensures forall limit ::
                QuerySnapshot(keyColumns, snapshot, limit) ==
                Answer(Fold(keyColumns, Flatten(past + [rows])), Some(limit))
    {
      snapshot := Snapshot(runs, memtable);
      IngestHolds(Settings(), past, rows);
      forall limit
        ensures QuerySnapshot(keyColumns, snapshot, limit) ==
                Answer(Fold(keyColumns, Flatten(past + [rows])), Some(limit))
      {
        HeldIsAnswer(keyColumns, snapshot, Flatten(past + [rows]), limit);
      }
    }

    /** A query answers as the plain map of everything ingested: it shows the rows in force. */
    method Query(limit: int) returns (rows: seq<Cells>, total: nat)
      requires Valid()
      ensures (rows, total) == Answer(Contents(), Some(limit))
      ensures Shows(keyColumns, Flatten(batches), limit, rows, total)
    {
      RunIsOracle(Settings(), batches, limit);
      AnswerShows(keyColumns, Flatten(batches), limit);
      var snap := snapshot;
      var answer := MergeToRows(keyColumns, snap.runs + snap.memtable, Some(limit));
      rows, total := answer.0, answer.1;
    }
  }
}
