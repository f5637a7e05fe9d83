/** The state of the stream store and what one ingest does to it, as values.

Models the fields of LSMStore in persistence/stream_store/lsm_store.py and the steps of
ingest, with the invariant of every reachable state. */
module Store {
  import opened Keys
  import opened Lists
  import opened Merge
  import opened Oracle

  datatype Config = Config(flushRows: int, compactionRuns: int, keyColumns: seq<string>)

  datatype Snapshot = Snapshot(runs: seq<Frame>, memtable: seq<Frame>)

  datatype State = State(seqno: nat, memtable: seq<Frame>, memtableRows: nat, runs: seq<Frame>, snapshot: Snapshot)

  const EMPTY := State(0, [], 0, [], Snapshot([], []))

  /** Stamp the rows, append the frame, count it. */
  function Appended(s: State, rows: seq<Cells>): State {
    s.(seqno := s.seqno + |rows|,
       memtable := s.memtable + [Stamp(rows, s.seqno)],
       memtableRows := s.memtableRows + |rows|)
  }

  function Flushed(s: State): State {
    if s.memtable == [] then s
    else s.(runs := s.runs + [Flatten(s.memtable)], memtable := [], memtableRows := 0)
  }

  function Compacted(kc: seq<string>, s: State): State {
    match MergeFrame(kc, s.runs)
    case None => s.(runs := [])
    case Some(merged) => s.(runs := [merged])
  }

  function Reorganised(cfg: Config, s: State): State {
    if s.memtableRows >= cfg.flushRows then
      if |Flushed(s).runs| >= cfg.compactionRuns then Compacted(cfg.keyColumns, Flushed(s)) else Flushed(s)
    else s
  }

  function Published(s: State): State { s.(snapshot := Snapshot(s.runs, s.memtable)) }

  function Ingested(cfg: Config, s: State, rows: seq<Cells>): State {
    Published(Reorganised(cfg, Appended(s, rows)))
  }

  function QuerySnapshot(kc: seq<string>, snap: Snapshot, limit: int): (seq<Cells>, nat) {
    MergeToRows(kc, snap.runs + snap.memtable, Some(limit))
  }

  /** The store after a sequence of batches, from the empty store. */
  function Run(cfg: Config, batches: seq<seq<Cells>>): State {
    if batches == [] then EMPTY
    else Ingested(cfg, Run(cfg, batches[..|batches| - 1]), batches[|batches| - 1])
  }

  function AtLeastOne(n: int): nat { if n < 1 then 1 else n }

  /** Every row held, runs first. */
  function Stored(s: State): Frame { Flatten(s.runs + s.memtable) }

  // ---- the invariant ----------------------------------------------------------------

  /** Every row is one that was ingested, under the sequence number it was stamped with. */
  ghost predicate Genuine(rows: Frame, history: seq<Cells>) {
    forall i :: 0 <= i < |rows| ==> rows[i].seqno < |history| && rows[i].cells == history[rows[i].seqno]
  }

  /** The rows held are ingested rows in increasing sequence number, and they merge to what
      the whole history merges to. */
  ghost predicate Holds(kc: seq<string>, rows: Frame, history: seq<Cells>) {
    && Increasing(rows)
    && Genuine(rows, history)
    && Winners(kc, rows) == Winners(kc, Stamp(history, 0))
  }

  /** The state between two steps of ingest, before anything is published. */
  ghost predicate Working(kc: seq<string>, s: State, history: seq<Cells>) {
    && s.seqno == |history|
    && s.memtableRows == |Flatten(s.memtable)|
    && Holds(kc, Stored(s), history)
  }

  ghost predicate Inv(cfg: Config, s: State, history: seq<Cells>) {
    && Working(cfg.keyColumns, s, history)
    && s.memtableRows < AtLeastOne(cfg.flushRows)
    && |s.runs| <= AtLeastOne(cfg.compactionRuns - 1)
    && s.snapshot == Snapshot(s.runs, s.memtable)
  }

  lemma HoldsAppend(kc: seq<string>, rows: Frame, history: seq<Cells>, batch: seq<Cells>)
    requires Holds(kc, rows, history)
    ensures Holds(kc, rows + Stamp(batch, |history|), history + batch)
  {
    AppendKeepsOrder(rows, history, batch);
    AppendKeepsWinners(kc, rows, history, batch);
  }

  lemma AppendKeepsOrder(rows: Frame, history: seq<Cells>, batch: seq<Cells>)
    requires Increasing(rows) && Genuine(rows, history)
    ensures Increasing(rows + Stamp(batch, |history|))
    ensures Genuine(rows + Stamp(batch, |history|), history + batch)
  {
    var all := rows + Stamp(batch, |history|);
    forall i | 0 <= i < |all|
      ensures all[i].seqno < |history + batch| && all[i].cells == (history + batch)[all[i].seqno]
    {
      if i >= |rows| { assert all[i] == Row(batch[i - |rows|], |history| + (i - |rows|)); }
    }
  }

  lemma AppendKeepsWinners(kc: seq<string>, rows: Frame, history: seq<Cells>, batch: seq<Cells>)
    requires Winners(kc, rows) == Winners(kc, Stamp(history, 0))
    ensures Winners(kc, rows + Stamp(batch, |history|)) == Winners(kc, Stamp(history + batch, 0))
  {
    var stamped := Stamp(batch, |history|);
    StampAppend(history, batch, 0);
    CompactionInvisible(kc, rows, stamped);
    CompactionInvisible(kc, Stamp(history, 0), stamped);
  }

  lemma AppendedWorking(kc: seq<string>, s: State, history: seq<Cells>, batch: seq<Cells>)
    requires Working(kc, s, history)
    ensures Working(kc, Appended(s, batch), history + batch)
  {
    var frame := Stamp(batch, s.seqno);
    FlattenSnoc(s.memtable, frame);
    FlattenSnoc(s.runs + s.memtable, frame);
    assert s.runs + (s.memtable + [frame]) == (s.runs + s.memtable) + [frame];
    HoldsAppend(kc, Stored(s), history, batch);
  }

  /** A flush moves rows from the memtable to the runs and keeps every row in its place. */
  lemma FlushKeepsRows(s: State)
    ensures Stored(Flushed(s)) == Stored(s)
  {
    FlattenAppend(s.runs, s.memtable);
    FlattenSnoc(s.runs, Flatten(s.memtable));
    assert s.runs + [Flatten(s.memtable)] + [] == s.runs + [Flatten(s.memtable)];
  }

  lemma {:induction false} TopRankedIncreasing(kc: seq<string>, rows: Frame, n: nat)
    requires Increasing(rows) && n <= |rows|
    ensures Increasing(TopRanked(kc, rows, n))
    ensures forall r :: r in TopRanked(kc, rows, n) ==> r in rows && (n < |rows| ==> r.seqno < rows[n].seqno)
  {
    if n == 0 {
    } else {
      TopRankedIncreasing(kc, rows, n - 1);
      var before := TopRanked(kc, rows, n - 1);
      if Rank(kc, rows, n - 1) == 1 {
        assert TopRanked(kc, rows, n) == before + [rows[n - 1]];
        assert forall i :: 0 <= i < |before| ==> before[i] in before;
      }
    }
  }

  lemma CompactedWorking(kc: seq<string>, s: State, history: seq<Cells>)
    requires Working(kc, s, history)
    ensures Working(kc, Compacted(kc, s), history)
  {
    var runs, mem := Flatten(s.runs), Flatten(s.memtable);
    FlattenAppend(s.runs, s.memtable);
    if s.runs == [] {
      assert Compacted(kc, s) == s;
    } else {
      FlattenAppend([Winners(kc, runs)], s.memtable);
      FlattenOne(Winners(kc, runs));
      MergePrefixHolds(kc, runs, mem, history);
    }
  }

  lemma MergePrefixHolds(kc: seq<string>, runs: Frame, mem: Frame, history: seq<Cells>)
    requires Holds(kc, runs + mem, history)
    ensures Holds(kc, Winners(kc, runs) + mem, history)
  {
    assert forall i :: 0 <= i < |runs| ==> runs[i] == (runs + mem)[i];
    TopRankedIncreasing(kc, runs, |runs|);
    PrefixGenuine(runs, Winners(kc, runs), mem, history);
    PrefixIncreasing(runs, Winners(kc, runs), mem);
    CompactionInvisible(kc, runs, mem);
  }

  lemma PrefixGenuine(runs: Frame, kept: Frame, mem: Frame, history: seq<Cells>)
    requires Genuine(runs + mem, history)
    requires forall r :: r in kept ==> r in runs
    ensures Genuine(kept + mem, history)
  {
    var all, small := runs + mem, kept + mem;
    forall i | 0 <= i < |small| ensures small[i].seqno < |history| && small[i].cells == history[small[i].seqno] {
      if i < |kept| {
        assert kept[i] in runs;
        var x :| 0 <= x < |runs| && runs[x] == kept[i];
        assert all[x] == small[i];
      } else {
        assert small[i] == all[|runs| + (i - |kept|)];
      }
    }
  }

  lemma PrefixIncreasing(runs: Frame, kept: Frame, mem: Frame)
    requires Increasing(runs + mem) && Increasing(kept)
    requires forall r :: r in kept ==> r in runs
    ensures Increasing(kept + mem)
  {
    var all, small := runs + mem, kept + mem;
    forall i, j | 0 <= i < j < |small| ensures small[i].seqno < small[j].seqno {
      if i >= |kept| {
        assert small[i] == all[|runs| + (i - |kept|)] && small[j] == all[|runs| + (j - |kept|)];
      } else if j >= |kept| {
        assert kept[i] in runs;
        var x :| 0 <= x < |runs| && runs[x] == kept[i];
        assert small[i] == all[x] && small[j] == all[|runs| + (j - |kept|)];
      }
    }
  }

  lemma ReorganisedWorking(cfg: Config, s: State, history: seq<Cells>)
    requires Working(cfg.keyColumns, s, history)
    ensures Working(cfg.keyColumns, Reorganised(cfg, s), history)
  {
    FlushKeepsRows(s);
    if |Flushed(s).runs| >= cfg.compactionRuns {
      CompactedWorking(cfg.keyColumns, Flushed(s), history);
    }
  }

  /** Every ingest keeps the invariant. */
  lemma IngestKeepsInv(cfg: Config, s: State, history: seq<Cells>, batch: seq<Cells>)
    requires Inv(cfg, s, history)
    ensures Inv(cfg, Ingested(cfg, s, batch), history + batch)
  {
    AppendedWorking(cfg.keyColumns, s, history, batch);
    ReorganisedWorking(cfg, Appended(s, batch), history + batch);
  }

  lemma EmptyInv(cfg: Config)
    ensures Inv(cfg, EMPTY, [])
  {
    assert Stamp([], 0) == [];
  }

  /** The invariant of every reachable state. */
  lemma {:induction false} RunInv(cfg: Config, batches: seq<seq<Cells>>)
    ensures Inv(cfg, Run(cfg, batches), Flatten(batches))
  {
    if batches == [] {
      EmptyInv(cfg);
    } else {
      var init, last := batches[..|batches| - 1], batches[|batches| - 1];
      RunInv(cfg, init);
      IngestKeepsInv(cfg, Run(cfg, init), Flatten(init), last);
      assert batches == init + [last];
      FlattenSnoc(init, last);
    }
  }

  /** The newest row ever ingested for a key is still held, under its own sequence number. */
  lemma NewestIsStored(cfg: Config, s: State, history: seq<Cells>, i: nat)
    requires Inv(cfg, s, history)
    requires i < |history|
    requires forall j :: i < j < |history| ==>
               RowKey(cfg.keyColumns, Row(history[j], j)) != RowKey(cfg.keyColumns, Row(history[i], i))
    ensures Row(history[i], i) in Stored(s)
  {
    var kc, all := cfg.keyColumns, Stamp(history, 0);
    forall q | q in all && RowKey(kc, q) == RowKey(kc, all[i]) ensures q.seqno <= i {
      var j :| 0 <= j < |all| && all[j] == q;
    }
    assert Newest(kc, all, all[i]);
    WinnersAreNewest(kc, all, all[i]);
    WinnersKeys(kc, Stored(s));
  }

  // ---- queries -----------------------------------------------------------------------

  /** Any frames that hold a history, published as a snapshot, answer every query as the
      oracle over that history. */
  lemma HeldIsAnswer(kc: seq<string>, snap: Snapshot, history: seq<Cells>, limit: int)
    requires Holds(kc, Flatten(snap.runs + snap.memtable), history)
    ensures QuerySnapshot(kc, snap, limit) == Answer(Fold(kc, history), Some(limit))
  {
    var frames := snap.runs + snap.memtable;
    WinnersRepresent(kc, Stamp(history, 0));
    ViewOfStamped(kc, history);
    SortedLiveIsAnswer(kc, Winners(kc, Flatten(frames)), Fold(kc, history), Some(limit));
    if frames == [] {
      assert Winners(kc, Flatten(frames)) == [];
      assert QuerySnapshot(kc, snap, limit) == ([], 0);
    }
  }

  /** In every state kept by the invariant a query is the oracle's answer over the whole
      history, for every limit. */
  lemma QueryIsOracle(cfg: Config, s: State, history: seq<Cells>, limit: int)
    requires Inv(cfg, s, history)
    ensures QuerySnapshot(cfg.keyColumns, s.snapshot, limit) == Answer(Fold(cfg.keyColumns, history), Some(limit))
  {
    HeldIsAnswer(cfg.keyColumns, s.snapshot, history, limit);
  }

  /** Before ingest publishes, the writer's own frames already hold the new history. */
  lemma IngestHolds(cfg: Config, batches: seq<seq<Cells>>, batch: seq<Cells>)
    ensures var held := Stored(Reorganised(cfg, Appended(Run(cfg, batches), batch)));
            Holds(cfg.keyColumns, held, Flatten(batches + [batch]))
  {
    RunInv(cfg, batches);
    FlattenSnoc(batches, batch);
    AppendedWorking(cfg.keyColumns, Run(cfg, batches), Flatten(batches), batch);
    ReorganisedWorking(cfg, Appended(Run(cfg, batches), batch), Flatten(batches + [batch]));
  }

  lemma RunIsOracle(cfg: Config, batches: seq<seq<Cells>>, limit: int)
    ensures QuerySnapshot(cfg.keyColumns, Run(cfg, batches).snapshot, limit) ==
            Answer(Fold(cfg.keyColumns, Flatten(batches)), Some(limit))
  {
    RunInv(cfg, batches);
    QueryIsOracle(cfg, Run(cfg, batches), Flatten(batches), limit);
  }

  /** One store fed some batches and another fed others answer a query alike. */
  ghost predicate AnswerAlike(a: Config, fedA: seq<seq<Cells>>, b: Config, fedB: seq<seq<Cells>>, limit: int) {
    QuerySnapshot(a.keyColumns, Run(a, fedA).snapshot, limit) ==
    QuerySnapshot(b.keyColumns, Run(b, fedB).snapshot, limit)
  }

  /** Stores with any thresholds, fed the same rows cut into batches in any way, answer every
      query alike. */
  lemma RepresentationIndependent(a: Config, b: Config, fedA: seq<seq<Cells>>, fedB: seq<seq<Cells>>, limit: int)
    requires a.keyColumns == b.keyColumns
    requires Flatten(fedA) == Flatten(fedB)
    ensures AnswerAlike(a, fedA, b, fedB, limit)
  {
    RunIsOracle(a, fedA, limit);
    RunIsOracle(b, fedB, limit);
  }

  lemma {:induction false} FlattenRepeat<T>(s: seq<seq<T>>, n: nat)
    ensures Flatten(Repeat(s, n)) == Repeat(Flatten(s), n)
  {
    if n == 0 {
    } else {
      FlattenRepeat(s, n - 1);
      FlattenAppend(Repeat(s, n - 1), s);
    }
  }

  /** Publishing the same batches again until the reader sees them: a suffix of the batches,
      then all of them once or more, answers as the batches delivered once to any store. */
  lemma RedeliveredBatchesConverge(a: Config, b: Config, batches: seq<seq<Cells>>, from: nat, n: nat, limit: int)
    requires a.keyColumns == b.keyColumns && ORDER_COLUMN !in a.keyColumns
    requires from <= |batches| && n >= 1
    ensures AnswerAlike(a, batches[from..] + Repeat(batches, n), b, batches, limit)
  {
    RunIsOracle(a, batches[from..] + Repeat(batches, n), limit);
    RunIsOracle(b, batches, limit);
    var skipped := RedeliveredRows(batches, from, n);
    RedeliveryConverges(a.keyColumns, Flatten(batches), skipped, n);
  }

  lemma RedeliveredRows<T>(batches: seq<seq<T>>, from: nat, n: nat) returns (skipped: nat)
    requires from <= |batches|
    ensures skipped <= |Flatten(batches)|
    ensures Flatten(batches[from..] + Repeat(batches, n)) == Flatten(batches)[skipped..] + Repeat(Flatten(batches), n)
  {
    FlattenAppend(batches[from..], Repeat(batches, n));
    FlattenRepeat(batches, n);
    FlattenAppend(batches[..from], batches[from..]);
    assert batches == batches[..from] + batches[from..];
    skipped := |Flatten(batches[..from])|;
    assert Flatten(batches[from..]) == Flatten(batches)[skipped..];
  }

  /** A store keyed on "seqno" answers after past and batches as after batches alone exactly when
      past holds no live row, whatever the thresholds and the limit. */
  lemma SeqnoKeyedPast(a: Config, b: Config, past: seq<seq<Cells>>, batches: seq<seq<Cells>>, limit: int)
    requires a.keyColumns == b.keyColumns && ORDER_COLUMN in a.keyColumns
    ensures AnswerAlike(a, past + batches, b, batches, limit) <==> NoneLive(Flatten(past))
  {
    RunIsOracle(a, past + batches, limit);
    RunIsOracle(b, batches, limit);
    FlattenAppend(past, batches);
    SeqnoKeyConvergesExactly(a.keyColumns, Flatten(past), Flatten(batches), Some(limit));
  }

  /** So redelivery to such a store converges exactly when the suffix sent again holds no live
      row and, if all batches are sent more than once, neither do they. */
  lemma SeqnoKeyedRedeliveryExactly(a: Config, b: Config, batches: seq<seq<Cells>>, from: nat, n: nat, limit: int)
    requires a.keyColumns == b.keyColumns && ORDER_COLUMN in a.keyColumns
    requires from <= |batches| && n >= 1
    ensures AnswerAlike(a, batches[from..] + Repeat(batches, n), b, batches, limit) <==>
            NoneLive(Flatten(batches[from..])) && (n > 1 ==> NoneLive(Flatten(batches)))
  {
    var past := batches[from..] + Repeat(batches, n - 1);
    assert batches[from..] + Repeat(batches, n) == past + batches;
    SeqnoKeyedPast(a, b, past, batches, limit);
    SentAgain(batches[from..], batches, n - 1);
  }

  lemma SentAgain(suffix: seq<seq<Cells>>, batches: seq<seq<Cells>>, n: nat)
    ensures NoneLive(Flatten(suffix + Repeat(batches, n))) <==>
            NoneLive(Flatten(suffix)) && (n > 0 ==> NoneLive(Flatten(batches)))
  {
    FlattenAppend(suffix, Repeat(batches, n));
    FlattenRepeat(batches, n);
    NoneLiveAppend(Flatten(suffix), Repeat(Flatten(batches), n));
    NoneLiveRepeat(Flatten(batches), n);
  }

  lemma NoneLiveAppend(a: seq<Cells>, b: seq<Cells>)
    ensures NoneLive(a + b) <==> NoneLive(a) && NoneLive(b)
  {
    LiveCountAppend(a, b);
    LiveCountZero(a + b);
    LiveCountZero(a);
    LiveCountZero(b);
  }

  lemma {:induction false} NoneLiveRepeat(rows: seq<Cells>, n: nat)
    ensures NoneLive(Repeat(rows, n)) <==> n == 0 || NoneLive(rows)
  {
    if n == 0 {
    } else {
      NoneLiveRepeat(rows, n - 1);
      NoneLiveAppend(Repeat(rows, n - 1), rows);
    }
  }

  /** The failing input: one live row delivered twice is answered twice. */
  lemma SeqnoKeyAnswersTwice(cfg: Config, put: Cells, limit: int)
    requires ORDER_COLUMN in cfg.keyColumns && IsLive(put)
    ensures QuerySnapshot(cfg.keyColumns, Run(cfg, [[put]]).snapshot, limit).1 == 1
    ensures QuerySnapshot(cfg.keyColumns, Run(cfg, [[put], [put]]).snapshot, limit).1 == 2
  {
    assert [[put]] + [[put]] == [[put], [put]] && [put] + [put] == [put, put];
    FlattenOne([put]);
    FlattenSnoc([[put]], [put]);
    LiveCountAppend([], [put]);
    LiveCountAppend([put], [put]);
    SeqnoKeyedTotal(cfg.keyColumns, [put]);
    SeqnoKeyedTotal(cfg.keyColumns, [put, put]);
    RunIsOracle(cfg, [[put]], limit);
    RunIsOracle(cfg, [[put], [put]], limit);
  }

  // ---- space --------------------------------------------------------------------------

  /** The distinct keys ever ingested, deleted ones included. */
  function KeysSeen(kc: seq<string>, history: seq<Cells>): set<Key> { KeySet(kc, Stamp(history, 0)) }

  /** Whether the ingest of batch compacts. */
  predicate Compacts(cfg: Config, s: State, batch: seq<Cells>) {
    Appended(s, batch).memtableRows >= cfg.flushRows &&
    |Flushed(Appended(s, batch)).runs| >= cfg.compactionRuns
  }

  /** Right after a compaction the rows held are exactly one per key ever ingested. */
  lemma CompactionIsExact(cfg: Config, s: State, history: seq<Cells>, batch: seq<Cells>)
    requires Inv(cfg, s, history) && Compacts(cfg, s, batch)
    ensures |Stored(Ingested(cfg, s, batch))| == |KeysSeen(cfg.keyColumns, history + batch)|
    ensures |Ingested(cfg, s, batch).runs| == 1 && Ingested(cfg, s, batch).memtable == []
  {
    var kc, all := cfg.keyColumns, history + batch;
    var f := Flushed(Appended(s, batch));
    AppendedWorking(kc, s, history, batch);
    FlushKeepsRows(Appended(s, batch));
    assert f.runs + f.memtable == f.runs;
    assert Stored(Ingested(cfg, s, batch)) == Winners(kc, Stored(f)) by {
      FlattenOne(Winners(kc, Stored(f)));
      assert [Winners(kc, Stored(f))] + [] == [Winners(kc, Stored(f))];
    }
    OneRowPerKey(kc, Stamp(all, 0));
  }

  /** The rows one flush can put into a run, when no batch is longer than most. */
  function RunCapacity(cfg: Config, most: nat): nat { AtLeastOne(cfg.flushRows) - 1 + most }

  function Max(a: nat, b: nat): nat { if a < b then b else a }

  /** What each run may hold: the oldest a compacted run or a flush, the others one flush each. */
  ghost predicate RunsWithin(cfg: Config, runs: seq<Frame>, keys: nat, most: nat) {
    && (runs != [] ==> |runs[0]| <= if cfg.compactionRuns <= 1 then keys else Max(keys, RunCapacity(cfg, most)))
    && (forall i :: 1 <= i < |runs| ==> |runs[i]| <= RunCapacity(cfg, most))
  }

  lemma {:induction false} RunsTotal(runs: seq<Frame>, first: nat, other: nat)
    requires runs != [] ==> |runs[0]| <= first
    requires forall i :: 1 <= i < |runs| ==> |runs[i]| <= other
    ensures |Flatten(runs)| <= if runs == [] then 0 else first + (|runs| - 1) * other
  {
    if runs == [] {
    } else {
      var init, last := runs[..|runs| - 1], runs[|runs| - 1];
      assert runs == init + [last];
      FlattenSnoc(init, last);
      RunsTotal(init, first, other);
      if init != [] {
        assert (|init| - 1) * other + other == |init| * other;
      }
    }
  }

  lemma KeysSeenGrow(kc: seq<string>, history: seq<Cells>, batch: seq<Cells>)
    ensures |KeysSeen(kc, history)| <= |KeysSeen(kc, history + batch)|
  {
    StampAppend(history, batch, 0);
    SmallerSet(KeysSeen(kc, history), KeysSeen(kc, history + batch));
  }

  /** One ingest keeps the runs within their bounds. */
  lemma IngestKeepsRunsWithin(cfg: Config, s: State, history: seq<Cells>, batch: seq<Cells>, most: nat)
    requires Inv(cfg, s, history) && |batch| <= most
    requires RunsWithin(cfg, s.runs, |KeysSeen(cfg.keyColumns, history)|, most)
    ensures RunsWithin(cfg, Ingested(cfg, s, batch).runs, |KeysSeen(cfg.keyColumns, history + batch)|, most)
  {
    KeysSeenGrow(cfg.keyColumns, history, batch);
    if Compacts(cfg, s, batch) {
      CompactionIsExact(cfg, s, history, batch);
      var after := Ingested(cfg, s, batch);
      assert after.runs + after.memtable == [after.runs[0]];
      FlattenOne(after.runs[0]);
    } else if Appended(s, batch).memtableRows >= cfg.flushRows {
      FlattenSnoc(s.memtable, Stamp(batch, s.seqno));
      var flush := Flatten(Appended(s, batch).memtable);
      assert |flush| <= RunCapacity(cfg, most);
      assert Ingested(cfg, s, batch).runs == s.runs + [flush];
    }
  }

  lemma {:induction false} RunWithin(cfg: Config, batches: seq<seq<Cells>>, most: nat)
    requires forall b :: b in batches ==> |b| <= most
    ensures RunsWithin(cfg, Run(cfg, batches).runs, |KeysSeen(cfg.keyColumns, Flatten(batches))|, most)
  {
    if batches == [] {
    } else {
      var init, last := batches[..|batches| - 1], batches[|batches| - 1];
      assert batches == init + [last];
      RunWithin(cfg, init, most);
      RunInv(cfg, init);
      FlattenSnoc(init, last);
      IngestKeepsRunsWithin(cfg, Run(cfg, init), Flatten(init), last, most);
    }
  }

  /** The most rows a store may hold once keys distinct keys have been ingested. */
  function SpaceBound(cfg: Config, keys: nat, most: nat): int {
    if cfg.compactionRuns <= 1 then keys + (AtLeastOne(cfg.flushRows) - 1)
    else Max(keys, RunCapacity(cfg, most)) + (cfg.compactionRuns - 2) * RunCapacity(cfg, most)
         + (AtLeastOne(cfg.flushRows) - 1)
  }

  /** After any ingests of batches of at most most rows, the rows held are within the bound. */
  lemma SpaceIsBounded(cfg: Config, batches: seq<seq<Cells>>, most: nat)
    requires forall b :: b in batches ==> |b| <= most
    ensures |Stored(Run(cfg, batches))| <= SpaceBound(cfg, |KeysSeen(cfg.keyColumns, Flatten(batches))|, most)
  {
    var s := Run(cfg, batches);
    RunInv(cfg, batches);
    RunWithin(cfg, batches, most);
    FlattenAppend(s.runs, s.memtable);
    RunsWithinTotal(cfg, s.runs, |KeysSeen(cfg.keyColumns, Flatten(batches))|, most);
  }

  lemma RunsWithinTotal(cfg: Config, runs: seq<Frame>, keys: nat, most: nat)
    requires RunsWithin(cfg, runs, keys, most) && |runs| <= AtLeastOne(cfg.compactionRuns - 1)
    ensures |Flatten(runs)| + (AtLeastOne(cfg.flushRows) - 1) <= SpaceBound(cfg, keys, most)
  {
    var first := if cfg.compactionRuns <= 1 then keys else Max(keys, RunCapacity(cfg, most));
    RunsTotal(runs, first, RunCapacity(cfg, most));
    RunsBound(cfg, |runs|, keys, most, |Flatten(runs)|);
  }

  lemma RunsBound(cfg: Config, count: nat, keys: nat, most: nat, total: nat)
    requires count <= AtLeastOne(cfg.compactionRuns - 1)
    requires var first := if cfg.compactionRuns <= 1 then keys else Max(keys, RunCapacity(cfg, most));
             total <= if count == 0 then 0 else first + (count - 1) * RunCapacity(cfg, most)
    ensures total + (AtLeastOne(cfg.flushRows) - 1) <= SpaceBound(cfg, keys, most)
  {
    var capacity := RunCapacity(cfg, most);
    if cfg.compactionRuns > 1 {
      MulMonotone(if count == 0 then 0 else count - 1, cfg.compactionRuns - 2, capacity);
    } else if count == 1 {
      assert (count - 1) * capacity == 0;
    }
  }

  lemma MulMonotone(a: nat, b: int, n: nat)
    requires a <= b
    ensures a * n <= b * n
  {
  }
}
