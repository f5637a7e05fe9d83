/** One writer and any number of readers, instruction by instruction.

The writer runs LSMStore.ingest one field update at a time; a reader takes the published
snapshot in one read and merges it later. Between any two of these steps any other thread
may run. The published snapshot changes in one step only, and every answer a reader gets is
the oracle's over a whole number of batches, fixed when the reader took the snapshot. */
module SnapshotReads {
  import opened Lists
  import opened Merge
  import opened Oracle
  import opened Plain
  import opened Store

  /** Where the writer is inside ingest (lsm_store.py, lines 63-76, and the helpers it calls). */
  datatype Writer =
    | Idle
    | Converted(rows: seq<Cells>)      // the frame exists, nothing is stamped
    | Stamped(frame: Frame)            // stamped, _seqno not yet advanced
    | Advanced(frame: Frame)           // _seqno advanced
    | Appending(height: nat)           // frame in the memtable, not yet counted
    | Counted                          // about to compare with flush_rows
    | RunAdded                         // memtable concatenated into a new run
    | Cleared                          // memtable emptied, its row count not yet
    | FlushDone                        // about to compare with compaction_runs
    | Compacting(merged: Option<Frame>) // merge computed, runs not yet replaced
    | Publishing                       // about to build the snapshot
    | Built(snap: Snapshot)            // snapshot built, not yet assigned
    | Returning                        // snapshot assigned

  /** A reader: called with a limit, then holding the snapshot it read. finished and answered
      record how many ingests had returned and how many answers had been given at the call;
      version how many snapshots had been published when the snapshot was read. */
  datatype Reader =
    | Absent
    | Called(limit: int, finished: nat, answered: nat)
    | Holding(limit: int, finished: nat, answered: nat, snap: Snapshot, version: nat)

  datatype Reply = Reply(limit: int, finished: nat, answered: nat, version: nat, started: nat,
                         rows: seq<Cells>, total: nat)

  /** batches, published and finished record the ingests begun, published and returned. */
  datatype System = System(store: State, writer: Writer, readers: map<nat, Reader>,
                           batches: seq<seq<Cells>>, published: nat, finished: nat, replies: seq<Reply>)

  const INITIAL := System(EMPTY, Idle, map[], [], 0, 0, [])

  datatype Event =
    | Begin(rows: seq<Cells>)
    | WriterStep
    | Call(reader: nat, limit: int)
    | TakeSnapshot(reader: nat)
    | Respond(reader: nat)

  function ReaderAt(s: System, r: nat): Reader { if r in s.readers then s.readers[r] else Absent }

  predicate Enabled(s: System, e: Event) {
    match e
    case Begin(_) => s.writer == Idle
    case WriterStep => s.writer != Idle
    case Call(r, _) => ReaderAt(s, r).Absent?
    case TakeSnapshot(r) => ReaderAt(s, r).Called?
    case Respond(r) => ReaderAt(s, r).Holding?
  }

  function WriterNext(cfg: Config, s: System): System
    requires s.writer != Idle
  {
    var st := s.store;
    match s.writer
    case Converted(rows) => s.(writer := Stamped(Stamp(rows, st.seqno)))
    case Stamped(frame) => s.(store := st.(seqno := st.seqno + |frame|), writer := Advanced(frame))
    case Advanced(frame) => s.(store := st.(memtable := st.memtable + [frame]), writer := Appending(|frame|))
    case Appending(n) => s.(store := st.(memtableRows := st.memtableRows + n), writer := Counted)
    case Counted =>
      if st.memtableRows < cfg.flushRows then s.(writer := Publishing)
      else if st.memtable == [] then s.(writer := FlushDone)
      else s.(store := st.(runs := st.runs + [Flatten(st.memtable)]), writer := RunAdded)
    case RunAdded => s.(store := st.(memtable := []), writer := Cleared)
    case Cleared => s.(store := st.(memtableRows := 0), writer := FlushDone)
    case FlushDone =>
      if |st.runs| >= cfg.compactionRuns then s.(writer := Compacting(MergeFrame(cfg.keyColumns, st.runs)))
      else s.(writer := Publishing)
    case Compacting(merged) =>
      s.(store := st.(runs := if merged.Some? then [merged.value] else []), writer := Publishing)
    case Publishing => s.(writer := Built(Snapshot(st.runs, st.memtable)))
    case Built(snap) => s.(store := st.(snapshot := snap), writer := Returning, published := s.published + 1)
    case Returning => s.(writer := Idle, finished := s.finished + 1)
  }

  function Step(cfg: Config, s: System, e: Event): System
    requires Enabled(s, e)
  {
    match e
    case Begin(rows) => s.(writer := Converted(rows), batches := s.batches + [rows])
    case WriterStep => WriterNext(cfg, s)
    case Call(r, limit) => s.(readers := s.readers[r := Called(limit, s.finished, |s.replies|)])
    case TakeSnapshot(r) =>
      var c := s.readers[r];
      s.(readers := s.readers[r := Holding(c.limit, c.finished, c.answered, s.store.snapshot, s.published)])
    case Respond(r) =>
      var h := s.readers[r];
      var answer := QuerySnapshot(cfg.keyColumns, h.snap, h.limit);
      s.(readers := s.readers[r := Absent],
         replies := s.replies + [Reply(h.limit, h.finished, h.answered, h.version, |s.batches|, answer.0, answer.1)])
  }

  /** The system after a schedule: any list of events, where one that cannot happen yet is
      passed over. */
  function After(cfg: Config, events: seq<Event>): System {
    if events == [] then INITIAL
    else
      var s, e := After(cfg, events[..|events| - 1]), events[|events| - 1];
      if Enabled(s, e) then Step(cfg, s, e) else s
  }

  // ---- the writer's partial states -----------------------------------------------------

  /** What the store is while the writer is at each instruction: the effect of the
      instructions done so far on the last published store. */
  ghost predicate WriterAt(cfg: Config, w: Writer, st: State, base: State, rows: seq<Cells>) {
    var frame := Stamp(rows, base.seqno);
    var counted := Appended(base, rows);
    match w
    case Idle => true
    case Returning => true
    case Converted(r) => r == rows && st == base
    case Stamped(f) => f == frame && st == base
    case Advanced(f) => f == frame && st == base.(seqno := base.seqno + |rows|)
    case Appending(n) => n == |rows| && st == counted.(memtableRows := base.memtableRows)
    case Counted => st == counted
    case RunAdded =>
      counted.memtableRows >= cfg.flushRows && st == counted.(runs := base.runs + [Flatten(counted.memtable)])
    case Cleared =>
      counted.memtableRows >= cfg.flushRows && st == Flushed(counted).(memtableRows := counted.memtableRows)
    case FlushDone => counted.memtableRows >= cfg.flushRows && st == Flushed(counted)
    case Compacting(merged) =>
      && counted.memtableRows >= cfg.flushRows && st == Flushed(counted)
      && |st.runs| >= cfg.compactionRuns && merged == MergeFrame(cfg.keyColumns, st.runs)
    case Publishing => st == Reorganised(cfg, counted)
    case Built(snap) => st == Reorganised(cfg, counted) && snap == Snapshot(st.runs, st.memtable)
  }

  /** An answer is right: the oracle's over the first version batches. */
  ghost predicate Right(cfg: Config, batches: seq<seq<Cells>>, y: Reply) {
    y.version <= |batches| &&
    (y.rows, y.total) == Answer(Fold(cfg.keyColumns, Flatten(batches[..y.version])), Some(y.limit))
  }

  ghost predicate ReaderInv(cfg: Config, s: System, reader: Reader) {
    match reader
    case Absent => true
    case Called(_, finished, answered) => finished <= s.finished && answered <= |s.replies|
    case Holding(_, finished, answered, snap, version) =>
      && finished <= version <= s.published && version <= |s.batches| && answered <= |s.replies|
      && snap == Run(cfg, s.batches[..version]).snapshot
      && (forall i :: 0 <= i < answered ==> s.replies[i].version <= version)
  }

  ghost predicate Inv(cfg: Config, s: System) {
    && s.published <= |s.batches|
    && (s.writer.Idle? || s.writer.Returning? ==>
          s.published == |s.batches| && s.store == Run(cfg, s.batches))
    && (!s.writer.Idle? && !s.writer.Returning? ==>
          s.published + 1 == |s.batches| &&
          WriterAt(cfg, s.writer, s.store, Run(cfg, s.batches[..s.published]), s.batches[s.published]))
    && s.finished + (if s.writer.Returning? then 1 else 0) == s.published
    && (forall r :: r in s.readers ==> ReaderInv(cfg, s, s.readers[r]))
    && (forall i :: 0 <= i < |s.replies| ==> ReplyInv(cfg, s, i))
  }

  ghost predicate ReplyInv(cfg: Config, s: System, i: nat)
    requires i < |s.replies| && s.published <= |s.batches|
  {
    var y := s.replies[i];
    && y.finished <= y.version <= s.published && y.version <= y.started <= |s.batches|
    && Right(cfg, s.batches, y)
    && y.answered <= i
    && (forall j :: 0 <= j < y.answered ==> s.replies[j].version <= y.version)
  }

  // ---- every step keeps the invariant ----------------------------------------------------

  /** t is s with more batches begun, published, returned and more replies given. */
  ghost predicate Later(s: System, t: System) {
    && s.published <= |s.batches| && t.published <= |t.batches|
    && s.batches <= t.batches && s.replies <= t.replies
    && s.published <= t.published && s.finished <= t.finished
  }

  lemma ReaderInvLater(cfg: Config, s: System, t: System, reader: Reader)
    requires Later(s, t) && ReaderInv(cfg, s, reader)
    ensures ReaderInv(cfg, t, reader)
  {
    if reader.Holding? { assert t.batches[..reader.version] == s.batches[..reader.version]; }
  }

  lemma RepliesLater(cfg: Config, s: System, t: System)
    requires Later(s, t) && Inv(cfg, s)
    ensures forall i :: 0 <= i < |s.replies| ==> ReplyInv(cfg, t, i)
  {
    forall i | 0 <= i < |s.replies| ensures ReplyInv(cfg, t, i) {
      assert ReplyInv(cfg, s, i);
      assert t.batches[..s.replies[i].version] == s.batches[..s.replies[i].version];
    }
  }

  lemma ReadersLater(cfg: Config, s: System, t: System)
    requires Later(s, t) && Inv(cfg, s) && t.readers == s.readers
    ensures forall r :: r in t.readers ==> ReaderInv(cfg, t, t.readers[r])
  {
    forall r | r in t.readers ensures ReaderInv(cfg, t, t.readers[r]) {
      ReaderInvLater(cfg, s, t, s.readers[r]);
    }
  }

  lemma WriterPartial(cfg: Config, s: System, base: State, rows: seq<Cells>)
    requires !s.writer.Idle? && !s.writer.Returning? && WriterAt(cfg, s.writer, s.store, base, rows)
    ensures var t := WriterNext(cfg, s);
            if t.writer.Returning? then t.store == Ingested(cfg, base, rows)
            else !t.writer.Idle? && WriterAt(cfg, t.writer, t.store, base, rows)
    ensures s.store.snapshot == base.snapshot
  {
  }

  /** The writer's instructions between two publications compose to one whole ingest. */
  lemma WriterStepKeepsInv(cfg: Config, s: System)
    requires Inv(cfg, s) && s.writer != Idle
    ensures Inv(cfg, WriterNext(cfg, s))
  {
    var t := WriterNext(cfg, s);
    if !s.writer.Returning? {
      var base, rows := Run(cfg, s.batches[..s.published]), s.batches[s.published];
      WriterPartial(cfg, s, base, rows);
      assert s.writer.Built? ==> s.batches[..|s.batches| - 1] == s.batches[..s.published];
    }
    assert Later(s, t);
    RepliesLater(cfg, s, t);
    ReadersLater(cfg, s, t);
  }

  lemma BeginKeepsInv(cfg: Config, s: System, rows: seq<Cells>)
    requires Inv(cfg, s) && s.writer == Idle
    ensures Inv(cfg, Step(cfg, s, Begin(rows)))
  {
    var t := Step(cfg, s, Begin(rows));
    assert t.batches[..s.published] == s.batches;
    assert Later(s, t);
    RepliesLater(cfg, s, t);
    ReadersLater(cfg, s, t);
  }

  lemma SnapshotIsPublished(cfg: Config, s: System)
    requires Inv(cfg, s)
    ensures s.store.snapshot == Run(cfg, s.batches[..s.published]).snapshot
  {
    if s.writer.Idle? || s.writer.Returning? {
      assert s.batches[..s.published] == s.batches;
    } else {
      WriterPartial(cfg, s, Run(cfg, s.batches[..s.published]), s.batches[s.published]);
    }
  }

  lemma CallKeepsInv(cfg: Config, s: System, r: nat, limit: int)
    requires Inv(cfg, s) && ReaderAt(s, r).Absent?
    ensures Inv(cfg, Step(cfg, s, Call(r, limit)))
  {
    var t := Step(cfg, s, Call(r, limit));
    RepliesLater(cfg, s, t);
    forall q | q in t.readers ensures ReaderInv(cfg, t, t.readers[q]) {
      if q != r { ReaderInvLater(cfg, s, t, s.readers[q]); }
    }
  }

  lemma TakeSnapshotKeepsInv(cfg: Config, s: System, r: nat)
    requires Inv(cfg, s) && ReaderAt(s, r).Called?
    ensures Inv(cfg, Step(cfg, s, TakeSnapshot(r)))
  {
    var t := Step(cfg, s, TakeSnapshot(r));
    SnapshotIsPublished(cfg, s);
    RepliesLater(cfg, s, t);
    forall j | 0 <= j < |s.replies| ensures s.replies[j].version <= s.published {
      assert ReplyInv(cfg, t, j);
    }
    forall q | q in t.readers ensures ReaderInv(cfg, t, t.readers[q]) {
      ReaderInvLater(cfg, s, t, s.readers[q]);
    }
  }

  lemma RespondKeepsInv(cfg: Config, s: System, r: nat)
    requires Inv(cfg, s) && ReaderAt(s, r).Holding?
    ensures Inv(cfg, Step(cfg, s, Respond(r)))
  {
    var t, h := Step(cfg, s, Respond(r)), s.readers[r];
    assert ReaderInv(cfg, s, h);
    assert Later(s, t);
    RunIsOracle(cfg, s.batches[..h.version], h.limit);
    RepliesLater(cfg, s, t);
    assert ReplyInv(cfg, t, |s.replies|);
    forall q | q in t.readers ensures ReaderInv(cfg, t, t.readers[q]) {
      if q != r { ReaderInvLater(cfg, s, t, s.readers[q]); }
    }
  }

  lemma StepKeepsInv(cfg: Config, s: System, e: Event)
    requires Inv(cfg, s) && Enabled(s, e)
    ensures Inv(cfg, Step(cfg, s, e))
  {
    match e
    case Begin(rows) => BeginKeepsInv(cfg, s, rows);
    case WriterStep => WriterStepKeepsInv(cfg, s);
    case Call(r, limit) => CallKeepsInv(cfg, s, r, limit);
    case TakeSnapshot(r) => TakeSnapshotKeepsInv(cfg, s, r);
    case Respond(r) => RespondKeepsInv(cfg, s, r);
  }

  lemma {:induction false} AfterInv(cfg: Config, events: seq<Event>)
    ensures Inv(cfg, After(cfg, events))
  {
    if events == [] {
    } else {
      var init, e := events[..|events| - 1], events[|events| - 1];
      AfterInv(cfg, init);
      if Enabled(After(cfg, init), e) { StepKeepsInv(cfg, After(cfg, init), e); }
    }
  }

  // ---- the theorem -------------------------------------------------------------------------

  /** In every interleaving every answer is the oracle's over a whole-batch prefix, and that
      prefix holds every ingest that had returned when the query was called and none begun
      after it answered; a query called after another answered sees a prefix at least as long. */
  lemma ReadsAreLinearizable(cfg: Config, events: seq<Event>, i: nat)
    requires i < |After(cfg, events).replies|
    ensures var s := After(cfg, events);
            var y := s.replies[i];
            && y.finished <= y.version <= y.started <= |s.batches|
            && (y.rows, y.total) == Answer(Fold(cfg.keyColumns, Flatten(s.batches[..y.version])), Some(y.limit))
            && y.answered <= i
            && forall j :: 0 <= j < y.answered ==> s.replies[j].version <= y.version
  {
    AfterInv(cfg, events);
    assert ReplyInv(cfg, After(cfg, events), i);
  }

  // ---- one request over the schedule ---------------------------------------------------------

  /** The batches of the Begin events that find the writer idle, in order. */
  function Begun(cfg: Config, events: seq<Event>): seq<seq<Cells>> {
    if events == [] then []
    else
      var init, e := events[..|events| - 1], events[|events| - 1];
      Begun(cfg, init) + if e.Begin? && After(cfg, init).writer == Idle then [e.rows] else []
  }

  lemma StepBegins(cfg: Config, s: System, e: Event)
    requires Enabled(s, e)
    ensures Step(cfg, s, e).batches == s.batches + if e.Begin? then [e.rows] else []
  {
  }

  lemma {:induction false} BatchesAreBegun(cfg: Config, events: seq<Event>)
    ensures After(cfg, events).batches == Begun(cfg, events)
  {
    if events == [] {
    } else {
      var init, e := events[..|events| - 1], events[|events| - 1];
      BatchesAreBegun(cfg, init);
      if Enabled(After(cfg, init), e) { StepBegins(cfg, After(cfg, init), e); }
    }
  }

  predicate OfReader(e: Event, r: nat) {
    match e case Call(q, _) => q == r case TakeSnapshot(q) => q == r case Respond(q) => q == r case _ => false
  }

  /** No other thread's step touches a reader. */
  lemma OthersKeepReader(cfg: Config, s: System, e: Event, r: nat)
    requires Enabled(s, e) && !OfReader(e, r)
    ensures ReaderAt(Step(cfg, s, e), r) == ReaderAt(s, r)
  {
  }

  lemma {:induction false} ReaderWaits(cfg: Config, past: seq<Event>, events: seq<Event>, r: nat)
    requires forall e :: e in events ==> !OfReader(e, r)
    ensures ReaderAt(After(cfg, past + events), r) == ReaderAt(After(cfg, past), r)
  {
    if events == [] {
      assert past + events == past;
    } else {
      var init, e := events[..|events| - 1], events[|events| - 1];
      ReaderWaits(cfg, past, init, r);
      AfterSnoc(cfg, past + init, e);
      assert past + events == past + init + [e] && e in events;
      var s := After(cfg, past + init);
      if Enabled(s, e) { OthersKeepReader(cfg, s, e, r); }
    }
  }

  lemma AfterSnoc(cfg: Config, events: seq<Event>, e: Event)
    ensures var s := After(cfg, events);
            After(cfg, events + [e]) == if Enabled(s, e) then Step(cfg, s, e) else s
  {
    assert (events + [e])[..|events|] == events;
  }

  /** A request over the schedule: a reader that is absent is called with a limit, later takes
      the snapshot and later responds, whatever other threads do in between. Its response is one
      reply more; the reply answers the limit of the call, over the batches published when it
      took the snapshot, and those are the first batches begun. */
  lemma RequestIsAnswered(cfg: Config, past: seq<Event>, r: nat, limit: int, waiting: seq<Event>, holding: seq<Event>)
    requires ReaderAt(After(cfg, past), r).Absent?
    requires forall e :: e in waiting + holding ==> !OfReader(e, r)
    ensures var taking := past + [Call(r, limit)] + waiting;
            var holds := taking + [TakeSnapshot(r)] + holding;
            var t, begun := After(cfg, holds + [Respond(r)]), Begun(cfg, holds);
            && t.replies != [] && t.replies[..|t.replies| - 1] == After(cfg, holds).replies
            && ReaderAt(t, r).Absent?
            && var y, seen := t.replies[|t.replies| - 1], After(cfg, taking).published;
               && After(cfg, past).finished <= seen <= |begun|
               && Shows(cfg.keyColumns, Flatten(begun[..seen]), limit, y.rows, y.total)
               && y.limit == limit && y.version == seen && y.started == |begun|
               && y.finished == After(cfg, past).finished && y.answered == |After(cfg, past).replies|
  {
    var taking := past + [Call(r, limit)] + waiting;
    var holds := taking + [TakeSnapshot(r)] + holding;
    RequestIsCalled(cfg, past, r, limit, waiting);
    RequestHolds(cfg, taking, r, limit, After(cfg, past).finished, |After(cfg, past).replies|, holding);
    AfterSnoc(cfg, holds, Respond(r));
    AfterInv(cfg, holds);
    BatchesAreBegun(cfg, holds);
    HeldIsAnswered(cfg, After(cfg, holds), r);
  }

  lemma RequestIsCalled(cfg: Config, past: seq<Event>, r: nat, limit: int, waiting: seq<Event>)
    requires ReaderAt(After(cfg, past), r).Absent? && forall e :: e in waiting ==> !OfReader(e, r)
    ensures var s := After(cfg, past);
            ReaderAt(After(cfg, past + [Call(r, limit)] + waiting), r) == Called(limit, s.finished, |s.replies|)
  {
    AfterSnoc(cfg, past, Call(r, limit));
    ReaderWaits(cfg, past + [Call(r, limit)], waiting, r);
  }

  lemma RequestHolds(cfg: Config, taking: seq<Event>, r: nat,
                     limit: int, finished: nat, answered: nat, holding: seq<Event>)
    requires ReaderAt(After(cfg, taking), r) == Called(limit, finished, answered)
    requires forall e :: e in holding ==> !OfReader(e, r)
    ensures var s := After(cfg, taking);
            ReaderAt(After(cfg, taking + [TakeSnapshot(r)] + holding), r) ==
            Holding(limit, finished, answered, s.store.snapshot, s.published)
  {
    AfterSnoc(cfg, taking, TakeSnapshot(r));
    ReaderWaits(cfg, taking + [TakeSnapshot(r)], holding, r);
  }

  lemma RespondAppends(cfg: Config, s: System, r: nat)
    requires ReaderAt(s, r).Holding?
    ensures var h, t := ReaderAt(s, r), Step(cfg, s, Respond(r));
            var a := QuerySnapshot(cfg.keyColumns, h.snap, h.limit);
            t.replies == s.replies + [Reply(h.limit, h.finished, h.answered, h.version, |s.batches|, a.0, a.1)] &&
            ReaderAt(t, r).Absent?
  {
  }

  lemma HeldShows(cfg: Config, s: System, h: Reader)
    requires Inv(cfg, s) && h.Holding? && ReaderInv(cfg, s, h)
    ensures h.finished <= h.version <= |s.batches|
    ensures var a := QuerySnapshot(cfg.keyColumns, h.snap, h.limit);
            Shows(cfg.keyColumns, Flatten(s.batches[..h.version]), h.limit, a.0, a.1)
  {
    RunIsOracle(cfg, s.batches[..h.version], h.limit);
    AnswerShows(cfg.keyColumns, Flatten(s.batches[..h.version]), h.limit);
  }

  /** The response of a reader that holds a snapshot. */
  lemma HeldIsAnswered(cfg: Config, s: System, r: nat)
    requires Inv(cfg, s) && ReaderAt(s, r).Holding?
    ensures ReaderAt(Step(cfg, s, Respond(r)), r).Absent?
    ensures var h, replies := ReaderAt(s, r), Step(cfg, s, Respond(r)).replies;
            && h.finished <= h.version <= |s.batches|
            && replies != [] && replies[..|replies| - 1] == s.replies
            && var y := replies[|replies| - 1];
               && y.limit == h.limit && y.version == h.version && y.started == |s.batches|
               && y.finished == h.finished && y.answered == h.answered
               && Shows(cfg.keyColumns, Flatten(s.batches[..h.version]), h.limit, y.rows, y.total)
  {
    assert ReaderInv(cfg, s, s.readers[r]);
    RespondAppends(cfg, s, r);
    HeldShows(cfg, s, s.readers[r]);
  }

  /** The linearization point is the assignment of the snapshot. Between publications readers
      see the oracle's answer over the published batches, every writer step but that one leaves
      it, and that one adds exactly one batch. */
  lemma OnlyPublishIsVisible(cfg: Config, events: seq<Event>, limit: int)
    requires After(cfg, events).writer != Idle
    ensures var s, t := After(cfg, events), After(cfg, events + [WriterStep]);
            && s.published <= t.published <= |s.batches| == |t.batches|
            && t.published == s.published + (if s.writer.Built? then 1 else 0)
            && SeenNow(cfg, s, limit) == Answer(Fold(cfg.keyColumns, Flatten(s.batches[..s.published])), Some(limit))
            && SeenNow(cfg, t, limit) == Answer(Fold(cfg.keyColumns, Flatten(s.batches[..t.published])), Some(limit))
            && (!s.writer.Built? ==> t.store.snapshot == s.store.snapshot)
  {
    assert (events + [WriterStep])[..|events|] == events;
    AfterInv(cfg, events);
    WriterStepSeen(cfg, After(cfg, events), limit);
  }

  lemma WriterStepSeen(cfg: Config, s: System, limit: int)
    requires Inv(cfg, s) && s.writer != Idle
    ensures var t := WriterNext(cfg, s);
            && s.published <= t.published <= |s.batches| && t.batches == s.batches
            && t.published == s.published + (if s.writer.Built? then 1 else 0)
            && SeenNow(cfg, s, limit) == Answer(Fold(cfg.keyColumns, Flatten(s.batches[..s.published])), Some(limit))
            && SeenNow(cfg, t, limit) == Answer(Fold(cfg.keyColumns, Flatten(t.batches[..t.published])), Some(limit))
            && (!s.writer.Built? ==> t.store.snapshot == s.store.snapshot)
  {
    var t := WriterNext(cfg, s);
    WriterStepCounts(cfg, s);
    assert Inv(cfg, t) && t.published <= |t.batches| by { WriterStepKeepsInv(cfg, s); }
    PublishedIsSeen(cfg, s, limit);
    PublishedIsSeen(cfg, t, limit);
  }

  lemma WriterStepCounts(cfg: Config, s: System)
    requires s.writer != Idle
    ensures var t := WriterNext(cfg, s);
            && t.batches == s.batches && t.readers == s.readers && t.replies == s.replies
            && t.published == s.published + (if s.writer.Built? then 1 else 0)
            && (!s.writer.Built? ==> t.store.snapshot == s.store.snapshot)
  {
  }

  /** What a query that read the snapshot now would answer. */
  function SeenNow(cfg: Config, s: System, limit: int): (seq<Cells>, nat) {
    QuerySnapshot(cfg.keyColumns, s.store.snapshot, limit)
  }

  lemma PublishedIsSeen(cfg: Config, s: System, limit: int)
    requires Inv(cfg, s)
    ensures SeenNow(cfg, s, limit) == Answer(Fold(cfg.keyColumns, Flatten(s.batches[..s.published])), Some(limit))
  {
    SnapshotIsPublished(cfg, s);
    RunIsOracle(cfg, s.batches[..s.published], limit);
  }

  /** What readers see shows the rows of the batches published. */
  lemma PublishedIsShown(cfg: Config, s: System, limit: int)
    requires Inv(cfg, s)
    ensures var now := SeenNow(cfg, s, limit);
            Shows(cfg.keyColumns, Flatten(s.batches[..s.published]), limit, now.0, now.1)
  {
    PublishedIsSeen(cfg, s, limit);
    AnswerShows(cfg.keyColumns, Flatten(s.batches[..s.published]), limit);
  }

  lemma ReplyIsShown(cfg: Config, s: System, i: nat)
    requires Inv(cfg, s) && i < |s.replies|
    ensures var y := s.replies[i];
            && y.finished <= y.version <= y.started <= |s.batches| && y.answered <= i
            && (forall j :: 0 <= j < y.answered ==> s.replies[j].version <= y.version)
            && Shows(cfg.keyColumns, Flatten(s.batches[..y.version]), y.limit, y.rows, y.total)
  {
    assert ReplyInv(cfg, s, i);
    AnswerShows(cfg.keyColumns, Flatten(s.batches[..s.replies[i].version]), s.replies[i].limit);
  }

  /** The writer left to run until its ingest is published. */
  function WriterAlone(cfg: Config, s: System): System
    decreases StepsLeft(s.writer)
  {
    if s.writer.Idle? || s.writer.Returning? then s else WriterAlone(cfg, WriterNext(cfg, s))
  }

  /** The sequential store is this machine with the writer left to run: from any state where
      it is idle, one ingest run alone leaves exactly the store one call of ingest leaves, and
      in one step more it has returned. */
  lemma WriterRefinesIngest(cfg: Config, s: System, rows: seq<Cells>)
    requires s.writer == Idle
    ensures var t := WriterAlone(cfg, Step(cfg, s, Begin(rows)));
            && t.writer == Returning && t.store == Ingested(cfg, s.store, rows)
            && t.published == s.published + 1 && t.readers == s.readers && t.replies == s.replies
            && WriterNext(cfg, t) == t.(writer := Idle, finished := t.finished + 1)
  {
    WriterAloneIngests(cfg, Step(cfg, s, Begin(rows)), s.store, rows);
  }

  lemma {:induction false} WriterAloneIngests(cfg: Config, s: System, base: State, rows: seq<Cells>)
    requires !s.writer.Idle? && !s.writer.Returning? && WriterAt(cfg, s.writer, s.store, base, rows)
    ensures var t := WriterAlone(cfg, s);
            && t.writer == Returning && t.store == Ingested(cfg, base, rows)
            && t.published == s.published + 1 && t.readers == s.readers && t.replies == s.replies
    decreases StepsLeft(s.writer)
  {
    var t := WriterNext(cfg, s);
    WriterPartial(cfg, s, base, rows);
    WriterStepCounts(cfg, s);
    if !t.writer.Returning? { WriterAloneIngests(cfg, t, base, rows); }
  }

  /** Every step of the writer brings its ingest nearer to its return. */
  lemma WriterProgress(cfg: Config, s: System)
    requires s.writer != Idle
    ensures StepsLeft(WriterNext(cfg, s).writer) < StepsLeft(s.writer)
  {
  }

  function StepsLeft(w: Writer): nat {
    match w
    case Converted(_) => 12 case Stamped(_) => 11 case Advanced(_) => 10 case Appending(_) => 9
    case Counted => 8 case RunAdded => 7 case Cleared => 6 case FlushDone => 5 case Compacting(_) => 4
    case Publishing => 3 case Built(_) => 2 case Returning => 1 case Idle => 0
  }
}
