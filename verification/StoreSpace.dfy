/** The space bound of the stream store is exact.

For all thresholds, every batch size and every list of rows with distinct keys there are
batches of those rows after which the store holds as many rows as the bound allows for that
many keys. The rows arrive round and round. When the keys are more than one flush can hold,
or every flush compacts, the store is first brought to a compaction; from there, or from the
empty store, runs are flushed as late and as large as they can be, just short of the next
compaction. */
module StoreSpace {
  import opened Keys
  import opened Lists
  import opened Merge
  import opened Oracle
  import opened Store

  /** n rows of the round, from the i-th on. */
  function Round(rows: seq<Cells>, i: nat, n: nat): seq<Cells>
    requires rows != []
  {
    seq(n, j requires 0 <= j < n => rows[(i + j) % |rows|])
  }

  /** Everything ingested is the round from its start, in batches of at most most rows. */
  ghost predicate Rounds(batches: seq<seq<Cells>>, rows: seq<Cells>, most: nat)
    requires rows != []
  {
    && Flatten(batches) == Round(rows, 0, |Flatten(batches)|)
    && (forall b :: b in batches ==> |b| <= most)
  }

  ghost predicate DistinctKeys(kc: seq<string>, rows: seq<Cells>) {
    forall i, j :: 0 <= i < j < |rows| ==> KeyOf(kc, rows[i]) != KeyOf(kc, rows[j])
  }

  /** One more batch of n rows of the round. */
  lemma NextBatch(cfg: Config, batches: seq<seq<Cells>>, rows: seq<Cells>, most: nat, n: nat)
    returns (more: seq<seq<Cells>>)
    requires rows != [] && Rounds(batches, rows, most) && n <= most
    ensures Rounds(more, rows, most) && |Flatten(more)| == |Flatten(batches)| + n
    ensures more == batches + [Round(rows, |Flatten(batches)|, n)]
    ensures Run(cfg, more) == Ingested(cfg, Run(cfg, batches), Round(rows, |Flatten(batches)|, n))
  {
    var batch := Round(rows, |Flatten(batches)|, n);
    more := batches + [batch];
    FlattenSnoc(batches, batch);
    assert more[..|batches|] == batches;
  }

  // ---- the keys of the round -----------------------------------------------------------------

  lemma RoundAt(rows: seq<Cells>, n: nat, i: nat)
    requires rows != [] && i < n
    ensures i % |rows| < |rows| && Round(rows, 0, n)[i] == rows[i % |rows|]
    ensures i < |rows| ==> Round(rows, 0, n)[i] == rows[i]
  {
    if i < |rows| { assert i % |rows| == i; }
  }

  /** Once the round is complete the keys seen are exactly those of the rows. */
  lemma RoundKeys(kc: seq<string>, rows: seq<Cells>, n: nat)
    requires ORDER_COLUMN !in kc && rows != [] && DistinctKeys(kc, rows) && n >= |rows|
    ensures |KeysSeen(kc, Round(rows, 0, n))| == |rows|
  {
    var all, once := Stamp(Round(rows, 0, n), 0), Stamp(rows, 0);
    forall r | r in all ensures RowKey(kc, r) in KeySet(kc, once) {
      var i: nat :| i < |all| && all[i] == r;
      RoundAt(rows, n, i);
      StampKeepsKey(kc, r);
      StampKeepsKey(kc, once[i % |rows|]);
      assert once[i % |rows|] in once;
    }
    forall r | r in once ensures RowKey(kc, r) in KeySet(kc, all) {
      var i: nat :| i < |once| && once[i] == r;
      RoundAt(rows, n, i);
      assert all[i] == r && all[i] in all;
    }
    assert KeySet(kc, all) == KeySet(kc, once);
    DistinctStamped(kc, rows);
    UniqueKeysCount(kc, once);
  }

  lemma DistinctStamped(kc: seq<string>, rows: seq<Cells>)
    requires ORDER_COLUMN !in kc && DistinctKeys(kc, rows)
    ensures UniqueKeys(kc, Stamp(rows, 0))
  {
    var once := Stamp(rows, 0);
    forall i, j | 0 <= i < j < |once| ensures RowKey(kc, once[i]) != RowKey(kc, once[j]) {
      StampKeepsKey(kc, once[i]);
      StampKeepsKey(kc, once[j]);
    }
  }

  // ---- filling the memtable and the runs -------------------------------------------------------

  /** The store's shape: how many runs, the size of the first and of the others, and the rows
      in the memtable. */
  ghost predicate Shape(s: State, count: nat, first: nat, other: nat, mem: nat) {
    && |s.runs| == count && s.memtableRows == mem
    && (count > 0 ==> |s.runs[0]| == first)
    && (forall i :: 1 <= i < count ==> |s.runs[i]| == other)
  }

  /** Single rows fill the memtable up to one short of the threshold. */
  lemma {:induction false} FillMemtable(cfg: Config, batches: seq<seq<Cells>>, rows: seq<Cells>, most: nat, mem: nat)
    returns (more: seq<seq<Cells>>)
    requires rows != [] && Rounds(batches, rows, most) && most >= 1
    requires Run(cfg, batches).memtableRows == 0 && mem <= AtLeastOne(cfg.flushRows) - 1
    ensures Rounds(more, rows, most) && |Flatten(more)| == |Flatten(batches)| + mem
    ensures Run(cfg, more).runs == Run(cfg, batches).runs && Run(cfg, more).memtableRows == mem
  {
    if mem == 0 {
      more := batches;
    } else {
      var before := FillMemtable(cfg, batches, rows, most, mem - 1);
      more := NextBatch(cfg, before, rows, most, 1);
    }
  }

  /** A batch that brings the memtable to the threshold, with room for another run, is flushed. */
  lemma FlushBatch(cfg: Config, batches: seq<seq<Cells>>, rows: seq<Cells>, most: nat, n: nat)
    returns (more: seq<seq<Cells>>)
    requires rows != [] && Rounds(batches, rows, most) && n <= most
    requires var s := Run(cfg, batches);
             s.memtableRows + n >= cfg.flushRows && |s.runs| + 1 < cfg.compactionRuns
    ensures Rounds(more, rows, most) && |Flatten(more)| == |Flatten(batches)| + n
    ensures var s, t := Run(cfg, batches), Run(cfg, more);
            && t.memtableRows == 0
            && exists run: Frame :: |run| == s.memtableRows + n && t.runs == s.runs + [run]
  {
    var s, batch := Run(cfg, batches), Round(rows, |Flatten(batches)|, n);
    more := NextBatch(cfg, batches, rows, most, n);
    assert s.memtableRows == |Flatten(s.memtable)| by { RunInv(cfg, batches); }
    FlattenSnoc(s.memtable, Stamp(batch, s.seqno));
    var t, run := Run(cfg, more), Flatten(Appended(s, batch).memtable);
    assert t.runs == s.runs + [run];
  }

  /** Runs of the largest size a flush can have, up to count of them. */
  lemma {:induction false} LargestRuns(cfg: Config, batches: seq<seq<Cells>>, rows: seq<Cells>, most: nat,
                                       from: nat, first: nat, count: nat)
    returns (more: seq<seq<Cells>>)
    requires rows != [] && Rounds(batches, rows, most) && most >= 1
    requires from <= count < cfg.compactionRuns
    requires Shape(Run(cfg, batches), from, first, RunCapacity(cfg, most), 0)
    requires from == 0 ==> first == RunCapacity(cfg, most)
    ensures Rounds(more, rows, most)
    ensures |Flatten(more)| >= |Flatten(batches)| + if count > from then RunCapacity(cfg, most) else 0
    ensures Shape(Run(cfg, more), count, first, RunCapacity(cfg, most), 0)
  {
    var size := RunCapacity(cfg, most);
    if count == from {
      more := batches;
    } else {
      var before := LargestRuns(cfg, batches, rows, most, from, first, count - 1);
      var full := FillMemtable(cfg, before, rows, most, AtLeastOne(cfg.flushRows) - 1);
      more := FlushBatch(cfg, full, rows, most, most);
    }
  }

  // ---- a compaction after every key has been seen -------------------------------------------------

  function Missing(have: nat, wanted: int): nat { if have < wanted then wanted - have else 0 }

  /** From any store, single rows lead to a compaction, with any number of rows ingested first. */
  lemma {:induction false} ReachCompaction(cfg: Config, batches: seq<seq<Cells>>, rows: seq<Cells>,
                                           most: nat, least: nat)
    returns (more: seq<seq<Cells>>)
    requires rows != [] && Rounds(batches, rows, most) && most >= 1
    ensures Rounds(more, rows, most) && |Flatten(more)| >= least
    ensures var t := Run(cfg, more);
            t.memtableRows == 0 && |t.runs| == 1 && |t.runs[0]| == |KeysSeen(cfg.keyColumns, Flatten(more))|
    decreases Missing(|Flatten(batches)|, least),
              Missing(|Run(cfg, batches).runs|, cfg.compactionRuns),
              Missing(Run(cfg, batches).memtableRows, cfg.flushRows)
  {
    var s, batch := Run(cfg, batches), Round(rows, |Flatten(batches)|, 1);
    more := NextBatch(cfg, batches, rows, most, 1);
    if Compacts(cfg, s, batch) && |Flatten(more)| >= least {
      AfterCompaction(cfg, batches, batch, more);
    } else {
      if !Compacts(cfg, s, batch) { OneRowProgress(cfg, s, batch); }
      more := ReachCompaction(cfg, more, rows, most, least);
    }
  }

  lemma AfterCompaction(cfg: Config, batches: seq<seq<Cells>>, batch: seq<Cells>, more: seq<seq<Cells>>)
    requires more == batches + [batch] && Compacts(cfg, Run(cfg, batches), batch)
    ensures var t := Run(cfg, more);
            t.memtableRows == 0 && |t.runs| == 1 && |t.runs[0]| == |KeysSeen(cfg.keyColumns, Flatten(more))|
  {
    RunInv(cfg, batches);
    CompactionIsExact(cfg, Run(cfg, batches), Flatten(batches), batch);
    FlattenSnoc(batches, batch);
    assert more[..|batches|] == batches;
    var t := Run(cfg, more);
    assert t.runs + t.memtable == [t.runs[0]];
    FlattenOne(t.runs[0]);
  }

  /** A single row that does not compact makes the memtable or the list of runs longer. */
  lemma OneRowProgress(cfg: Config, s: State, batch: seq<Cells>)
    requires |batch| == 1 && !Compacts(cfg, s, batch)
    ensures var t := Ingested(cfg, s, batch);
            if s.memtableRows + 1 >= cfg.flushRows then |t.runs| == |s.runs| + 1 <= cfg.compactionRuns
            else t.runs == s.runs && t.memtableRows == s.memtableRows + 1 < cfg.flushRows
  {
  }

  // ---- the bound ---------------------------------------------------------------------------------

  lemma {:induction false} EqualRunsTotal(runs: seq<Frame>, size: nat)
    requires forall i :: 0 <= i < |runs| ==> |runs[i]| == size
    ensures |Flatten(runs)| == |runs| * size
  {
    if runs == [] {
    } else {
      EqualRunsTotal(runs[1..], size);
      assert |runs| * size == size + (|runs| - 1) * size;
    }
  }

  lemma ShapeTotal(cfg: Config, batches: seq<seq<Cells>>, count: nat, first: nat, other: nat, mem: nat)
    requires Shape(Run(cfg, batches), count, first, other, mem) && count >= 1
    ensures |Stored(Run(cfg, batches))| == first + (count - 1) * other + mem
  {
    var s := Run(cfg, batches);
    assert s.memtableRows == |Flatten(s.memtable)| by { RunInv(cfg, batches); }
    FlattenAppend(s.runs, s.memtable);
    assert s.runs == [s.runs[0]] + s.runs[1..];
    EqualRunsTotal(s.runs[1..], other);
  }

  /** The runs in place, the memtable is filled up. */
  lemma FillUp(cfg: Config, runs: seq<seq<Cells>>, rows: seq<Cells>, most: nat, count: nat, first: nat)
    returns (batches: seq<seq<Cells>>)
    requires rows != [] && Rounds(runs, rows, most) && most >= 1 && count >= 1
    requires Shape(Run(cfg, runs), count, first, RunCapacity(cfg, most), 0)
    ensures Rounds(batches, rows, most) && |Flatten(batches)| >= |Flatten(runs)|
    ensures |Stored(Run(cfg, batches))| ==
            first + (count - 1) * RunCapacity(cfg, most) + (AtLeastOne(cfg.flushRows) - 1)
  {
    batches := FillMemtable(cfg, runs, rows, most, AtLeastOne(cfg.flushRows) - 1);
    ShapeTotal(cfg, batches, count, first, RunCapacity(cfg, most), AtLeastOne(cfg.flushRows) - 1);
  }

  /** The same number of runs, as the bound counts them. */
  lemma BoundByRuns(cfg: Config, keys: nat, most: nat)
    ensures cfg.compactionRuns <= 1 || keys > RunCapacity(cfg, most) ==>
              SpaceBound(cfg, keys, most) ==
              keys + ((if cfg.compactionRuns <= 2 then 1 else cfg.compactionRuns - 1) - 1) * RunCapacity(cfg, most)
              + (AtLeastOne(cfg.flushRows) - 1)
  {
  }

  /** From a compaction on, when the keys outnumber a flush or every flush compacts. */
  lemma FillFromCompaction(cfg: Config, rows: seq<Cells>, most: nat) returns (batches: seq<seq<Cells>>)
    requires ORDER_COLUMN !in cfg.keyColumns && rows != [] && DistinctKeys(cfg.keyColumns, rows) && most >= 1
    requires cfg.compactionRuns <= 1 || |rows| > RunCapacity(cfg, most)
    ensures Rounds(batches, rows, most) && |Flatten(batches)| >= |rows|
    ensures |Stored(Run(cfg, batches))| == SpaceBound(cfg, |rows|, most)
  {
    BoundByRuns(cfg, |rows|, most);
    var count := if cfg.compactionRuns <= 2 then 1 else cfg.compactionRuns - 1;
    var full := CompactedRound(cfg, rows, most);
    if count > 1 { full := LargestRuns(cfg, full, rows, most, 1, |rows|, count); }
    batches := FillUp(cfg, full, rows, most, count, |rows|);
  }

  /** A store just compacted after every key has been seen. */
  lemma CompactedRound(cfg: Config, rows: seq<Cells>, most: nat) returns (batches: seq<seq<Cells>>)
    requires ORDER_COLUMN !in cfg.keyColumns && rows != [] && DistinctKeys(cfg.keyColumns, rows) && most >= 1
    ensures Rounds(batches, rows, most) && |Flatten(batches)| >= |rows|
    ensures Shape(Run(cfg, batches), 1, |rows|, RunCapacity(cfg, most), 0)
  {
    assert Rounds([], rows, most);
    batches := ReachCompaction(cfg, [], rows, most, |rows|);
    RoundKeys(cfg.keyColumns, rows, |Flatten(batches)|);
  }

  /** From the empty store, when one flush holds every key. */
  lemma FillFromEmpty(cfg: Config, rows: seq<Cells>, most: nat) returns (batches: seq<seq<Cells>>)
    requires ORDER_COLUMN !in cfg.keyColumns && rows != [] && DistinctKeys(cfg.keyColumns, rows) && most >= 1
    requires cfg.compactionRuns >= 2 && |rows| <= RunCapacity(cfg, most)
    ensures Rounds(batches, rows, most) && |Flatten(batches)| >= |rows|
    ensures |Stored(Run(cfg, batches))| == SpaceBound(cfg, |rows|, most)
  {
    assert Rounds([], rows, most);
    var full := LargestRuns(cfg, [], rows, most, 0, RunCapacity(cfg, most), cfg.compactionRuns - 1);
    batches := FillUp(cfg, full, rows, most, cfg.compactionRuns - 1, RunCapacity(cfg, most));
  }

  /** The bound is reached for every number of keys: whatever the thresholds and the batch size,
      for every list of rows with distinct keys some batches of those rows make the store hold
      exactly as many rows as the bound allows for that many keys. */
  lemma SpaceBoundIsReached(cfg: Config, rows: seq<Cells>, most: nat) returns (batches: seq<seq<Cells>>)
    requires ORDER_COLUMN !in cfg.keyColumns && rows != [] && DistinctKeys(cfg.keyColumns, rows) && most >= 1
    ensures forall b :: b in batches ==> |b| <= most
    ensures forall cells :: cells in Flatten(batches) ==> cells in rows
    ensures |KeysSeen(cfg.keyColumns, Flatten(batches))| == |rows|
    ensures |Stored(Run(cfg, batches))| == SpaceBound(cfg, |rows|, most)
  {
    if cfg.compactionRuns <= 1 || |rows| > RunCapacity(cfg, most) {
      batches := FillFromCompaction(cfg, rows, most);
    } else {
      batches := FillFromEmpty(cfg, rows, most);
    }
    RoundKeys(cfg.keyColumns, rows, |Flatten(batches)|);
  }

  // ---- a key on the sequence number ----------------------------------------------------------------

  lemma SeqnoKeysDiffer(kc: seq<string>, rows: Frame)
    requires ORDER_COLUMN in kc && Increasing(rows)
    ensures UniqueKeys(kc, rows)
  {
    var c :| 0 <= c < |kc| && kc[c] == ORDER_COLUMN;
    forall i, j | 0 <= i < j < |rows| ensures RowKey(kc, rows[i]) != RowKey(kc, rows[j]) {
      assert RowKey(kc, rows[i])[c] == Int(rows[i].seqno) && RowKey(kc, rows[j])[c] == Int(rows[j].seqno);
    }
  }

  /** With "seqno" among the key columns every row ever ingested has a key of its own and is held
      for good, in arrival order; a compaction drops nothing. */
  lemma SeqnoKeyKeepsEveryRow(cfg: Config, batches: seq<seq<Cells>>)
    requires ORDER_COLUMN in cfg.keyColumns
    ensures Stored(Run(cfg, batches)) == Stamp(Flatten(batches), 0)
    ensures |Stored(Run(cfg, batches))| == |KeysSeen(cfg.keyColumns, Flatten(batches))|
  {
    var kc, held, all := cfg.keyColumns, Stored(Run(cfg, batches)), Stamp(Flatten(batches), 0);
    RunInv(cfg, batches);
    SeqnoKeysDiffer(kc, held);
    SeqnoKeysDiffer(kc, all);
    UniqueKeysFixed(kc, held, |held|);
    UniqueKeysFixed(kc, all, |all|);
    assert held == held[..|held|] == Winners(kc, held) == Winners(kc, all) == all[..|all|] == all;
    UniqueKeysCount(kc, all);
  }
}
