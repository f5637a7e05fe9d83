/** Transport, ingest thread and readers at once.

main.py enters one of the two consumers; its batches reach the store through the ingest
thread, which records each one before it asks the generator for the next, while close(), the
transport's callbacks and any number of HTTP readers run. Here the transport's step machine
and the store's, one field access at a time each, run in every interleaving. */
module Serving {
  import opened Lists
  import opened Merge
  import opened Machine
  import opened Oracle
  import opened Plain
  import opened Store
  import opened LsmStore
  import opened IngestTrace
  import opened ConsumerLog
  import FlightConsumer
  import SolaceConsumer
  import SnapshotReads

  /** The consumers settings can choose (main.py, lines 31-34). */
  datatype Transport = FLIGHT | SOLACE

  datatype Consumer = Flight(flight: FlightConsumer.System) | Solace(solace: SolaceConsumer.System)

  datatype ConsumerEvent = OfFlight(flight: FlightConsumer.Event) | OfSolace(solace: SolaceConsumer.Event)

  function Entered(transport: Transport): Consumer {
    match transport case FLIGHT => Flight(FlightConsumer.INITIAL) case SOLACE => Solace(SolaceConsumer.INITIAL)
  }

  function ConsumerNext(enabled: bool, c: Consumer, e: ConsumerEvent): Consumer {
    match (c, e)
    case (Flight(s), OfFlight(event)) => Flight(FlightConsumer.Next(enabled, s, event))
    case (Solace(s), OfSolace(event)) => Solace(SolaceConsumer.Next(enabled, s, event))
    case _ => c
  }

  /** Every batch the generator has yielded to the loop. */
  function Yielded(c: Consumer): seq<Delivery> {
    match c case Flight(s) => s.log.yielded case Solace(s) => s.log.yielded
  }

  /** The loop has a batch in hand, which it is about to record or is recording. */
  predicate InHand(c: Consumer) {
    match c case Flight(s) => s.ingest.Holding? case Solace(s) => s.ingest.Holding?
  }

  predicate LoopExited(c: Consumer) {
    match c case Flight(s) => s.ingest.Exited? case Solace(s) => s.ingest.Exited?
  }

  /** handed says that the batch in hand has been given to the store, or has failed to convert. */
  datatype System = System(consumer: Consumer, handed: bool, store: SnapshotReads.System)

  datatype Event = ConsumerStep(event: ConsumerEvent) | Record | StoreStep(access: SnapshotReads.Event)

  /** The loop asks for the next batch once the last one's recording has returned. */
  function AfterConsumer(s: System, c: Consumer): System {
    if InHand(s.consumer) && !InHand(c) then
      if s.handed && s.store.writer.Idle? then s.(consumer := c, handed := false) else s
    else s.(consumer := c)
  }

  /** Recording begins: a batch that fails to convert leaves the store alone. */
  function AfterRecord(cfg: Config, s: System): System {
    var yielded := Yielded(s.consumer);
    if InHand(s.consumer) && !s.handed && s.store.writer.Idle? && yielded != [] then
      match yielded[|yielded| - 1].batch
      case Convertible(rows) => s.(handed := true, store := SnapshotReads.Step(cfg, s.store, SnapshotReads.Begin(rows)))
      case Malformed(_) => s.(handed := true)
    else s
  }

  function Next(cfg: Config, enabled: bool, s: System, e: Event): System {
    match e
    case ConsumerStep(event) => AfterConsumer(s, ConsumerNext(enabled, s.consumer, event))
    case Record => AfterRecord(cfg, s)
    case StoreStep(access) =>
      if !access.Begin? && SnapshotReads.Enabled(s.store, access)
      then s.(store := SnapshotReads.Step(cfg, s.store, access)) else s
  }

  function NextOf(cfg: Config, enabled: bool): (System, Event) -> System { (s, e) => Next(cfg, enabled, s, e) }

  /** The whole after a schedule; an event that cannot happen yet is passed over. */
  function After(cfg: Config, enabled: bool, transport: Transport, events: seq<Event>): System {
    Steps(NextOf(cfg, enabled), System(Entered(transport), false, SnapshotReads.INITIAL), events)
  }

  // ---- the invariant ---------------------------------------------------------------------------

  ghost predicate ConsumerInv(enabled: bool, c: Consumer) {
    match c case Flight(s) => FlightConsumer.Inv(enabled, s) case Solace(s) => SolaceConsumer.Inv(enabled, s)
  }

  /** All batches yielded but the one in hand, if any: their recording has returned. */
  function Recorded(yielded: seq<Delivery>, inHand: bool): seq<Delivery> {
    if inHand && yielded != [] then yielded[..|yielded| - 1] else yielded
  }

  predicate LastConverts(yielded: seq<Delivery>) {
    yielded != [] && yielded[|yielded| - 1].batch.Convertible?
  }

  /** The store has begun exactly the convertible batches handed over, in order; its writer runs
      only while the loop is recording one. */
  ghost predicate Fed(yielded: seq<Delivery>, inHand: bool, handed: bool, store: SnapshotReads.System) {
    && (inHand ==> yielded != [])
    && (handed ==> inHand)
    && (!store.writer.Idle? ==> handed && LastConverts(yielded))
    && store.batches == Accepted(Recorded(yielded, inHand && !handed))
  }

  ghost predicate Inv(cfg: Config, enabled: bool, s: System) {
    && ConsumerInv(enabled, s.consumer)
    && SnapshotReads.Inv(cfg, s.store)
    && Fed(Yielded(s.consumer), InHand(s.consumer), s.handed, s.store)
  }

  /** One step of a consumer yields at most one batch, and then the loop has it in hand. */
  ghost predicate YieldsAtMostOne(c: Consumer, d: Consumer) {
    if Yielded(d) == Yielded(c) then InHand(d) ==> InHand(c)
    else !InHand(c) && InHand(d) && Yielded(d) != [] && Yielded(d)[..|Yielded(d)| - 1] == Yielded(c)
  }

  lemma MoveYields(c: Consumer, d: Consumer, m: Move)
    requires Yielded(d) == if m.Yields? then Yielded(c) + [m.d] else Yielded(c)
    requires InHand(d) <==> m.Yields?
    requires m.Yields? ==> !InHand(c)
    ensures YieldsAtMostOne(c, d)
  {
  }

  lemma FlightHands(enabled: bool, s: FlightConsumer.System, answer: FlightConsumer.Response)
    ensures var m := FlightConsumer.MoveOf(s, answer);
            && (FlightConsumer.IngestNext(enabled, s, answer).ingest.Holding? <==> m.Yields?)
            && (m.Yields? ==> !s.ingest.Holding?)
  {
  }

  lemma SolaceHands(enabled: bool, s: SolaceConsumer.System, succeeds: bool)
    ensures var m := SolaceConsumer.MoveOf(s, succeeds);
            && (SolaceConsumer.IngestNext(enabled, s, succeeds).ingest.Holding? <==> m.Yields?)
            && (m.Yields? ==> !s.ingest.Holding?)
  {
  }

  lemma FlightYields(enabled: bool, s: FlightConsumer.System, answer: FlightConsumer.Response)
    requires FlightConsumer.Inv(enabled, s)
    ensures YieldsAtMostOne(Flight(s), Flight(FlightConsumer.IngestNext(enabled, s, answer)))
  {
    FlightConsumer.IngestKeepsLog(enabled, s, answer);
    FlightHands(enabled, s, answer);
    MoveYields(Flight(s), Flight(FlightConsumer.IngestNext(enabled, s, answer)), FlightConsumer.MoveOf(s, answer));
  }

  lemma SolaceYields(enabled: bool, s: SolaceConsumer.System, succeeds: bool)
    requires SolaceConsumer.Inv(enabled, s)
    ensures YieldsAtMostOne(Solace(s), Solace(SolaceConsumer.IngestNext(enabled, s, succeeds)))
  {
    var m := SolaceConsumer.MoveOf(s, succeeds);
    SolaceConsumer.IngestMoves(enabled, s, succeeds);
    MoveKeepsInv(enabled, s.log, SolaceConsumer.PhaseOf(s.ingest), m);
    SolaceHands(enabled, s, succeeds);
    MoveYields(Solace(s), Solace(SolaceConsumer.IngestNext(enabled, s, succeeds)), m);
  }

  lemma FlightKeepsInv(enabled: bool, s: FlightConsumer.System, e: FlightConsumer.Event)
    requires FlightConsumer.Inv(enabled, s)
    ensures FlightConsumer.Inv(enabled, FlightConsumer.Next(enabled, s, e))
    ensures YieldsAtMostOne(Flight(s), Flight(FlightConsumer.Next(enabled, s, e)))
  {
    FlightConsumer.NextKeepsInv(enabled, s, e);
    if e.IngestStep? { FlightYields(enabled, s, e.answer); } else { FlightCloses(s); }
  }

  lemma FlightCloses(s: FlightConsumer.System)
    ensures YieldsAtMostOne(Flight(s), Flight(FlightConsumer.CloseNext(s)))
  {
  }

  lemma SolaceKeepsInv(enabled: bool, s: SolaceConsumer.System, e: SolaceConsumer.Event)
    requires SolaceConsumer.Inv(enabled, s)
    ensures SolaceConsumer.Inv(enabled, SolaceConsumer.Next(enabled, s, e))
    ensures YieldsAtMostOne(Solace(s), Solace(SolaceConsumer.Next(enabled, s, e)))
  {
    SolaceConsumer.NextKeepsInv(enabled, s, e);
    if e.IngestStep? { SolaceYields(enabled, s, e.succeeds); } else { SolaceConsumer.OthersKeepIngest(enabled, s, e); }
  }

  lemma ConsumerKeepsInv(enabled: bool, c: Consumer, e: ConsumerEvent)
    requires ConsumerInv(enabled, c)
    ensures ConsumerInv(enabled, ConsumerNext(enabled, c, e)) && YieldsAtMostOne(c, ConsumerNext(enabled, c, e))
  {
    match c
    case Flight(s) => if e.OfFlight? { FlightKeepsInv(enabled, s, e.flight); }
    case Solace(s) => if e.OfSolace? { SolaceKeepsInv(enabled, s, e.solace); }
  }

  lemma AfterConsumerKeepsInv(cfg: Config, enabled: bool, s: System, c: Consumer)
    requires Inv(cfg, enabled, s) && ConsumerInv(enabled, c) && YieldsAtMostOne(s.consumer, c)
    ensures Inv(cfg, enabled, AfterConsumer(s, c))
  {
    ConsumerKeepsFed(Yielded(s.consumer), InHand(s.consumer), s.handed, s.store, Yielded(c), InHand(c));
  }

  lemma ConsumerKeepsFed(yielded: seq<Delivery>, inHand: bool, handed: bool, store: SnapshotReads.System,
                         yielded': seq<Delivery>, inHand': bool)
    requires Fed(yielded, inHand, handed, store)
    requires if yielded' == yielded then inHand' ==> inHand
             else !inHand && inHand' && yielded' != [] && yielded'[..|yielded'| - 1] == yielded
    ensures if inHand && !inHand' then handed && store.writer.Idle? ==> Fed(yielded', inHand', false, store)
            else Fed(yielded', inHand', handed, store)
  {
  }

  lemma AcceptedLast(yielded: seq<Delivery>)
    requires yielded != []
    ensures var init, last := yielded[..|yielded| - 1], yielded[|yielded| - 1];
            Accepted(yielded) == Accepted(init) + if last.batch.Convertible? then [last.batch.rows] else []
  {
  }

  lemma RecordKeepsInv(cfg: Config, enabled: bool, s: System)
    requires Inv(cfg, enabled, s)
    ensures Inv(cfg, enabled, AfterRecord(cfg, s))
  {
    var yielded := Yielded(s.consumer);
    if InHand(s.consumer) && !s.handed {
      AcceptedLast(yielded);
      var last := yielded[|yielded| - 1].batch;
      if last.Convertible? { SnapshotReads.BeginKeepsInv(cfg, s.store, last.rows); }
    }
  }

  lemma StoreStepFeeds(cfg: Config, store: SnapshotReads.System, e: SnapshotReads.Event)
    requires !e.Begin? && SnapshotReads.Enabled(store, e)
    ensures var t := SnapshotReads.Step(cfg, store, e);
            t.batches == store.batches && (store.writer.Idle? ==> t.writer.Idle?)
  {
  }

  lemma StoreKeepsInv(cfg: Config, enabled: bool, s: System, e: SnapshotReads.Event)
    requires Inv(cfg, enabled, s) && !e.Begin? && SnapshotReads.Enabled(s.store, e)
    ensures Inv(cfg, enabled, s.(store := SnapshotReads.Step(cfg, s.store, e)))
  {
    var t := SnapshotReads.Step(cfg, s.store, e);
    assert SnapshotReads.Inv(cfg, t) by { SnapshotReads.StepKeepsInv(cfg, s.store, e); }
    StoreStepFeeds(cfg, s.store, e);
  }

  lemma {:induction false} AfterInv(cfg: Config, enabled: bool, transport: Transport, events: seq<Event>)
    ensures Inv(cfg, enabled, After(cfg, enabled, transport, events))
  {
    if events == [] {
      FlightConsumer.AlwaysInv(enabled, []);
      SolaceConsumer.AlwaysInv(enabled, []);
      SnapshotReads.AfterInv(cfg, []);
    } else {
      var s, e := After(cfg, enabled, transport, events[..|events| - 1]), events[|events| - 1];
      AfterInv(cfg, enabled, transport, events[..|events| - 1]);
      match e
      case ConsumerStep(event) =>
        ConsumerKeepsInv(enabled, s.consumer, event);
        AfterConsumerKeepsInv(cfg, enabled, s, ConsumerNext(enabled, s.consumer, event));
      case Record => RecordKeepsInv(cfg, enabled, s);
      case StoreStep(access) =>
        if !access.Begin? && SnapshotReads.Enabled(s.store, access) { StoreKeepsInv(cfg, enabled, s, access); }
    }
  }

  // ---- what the transport was sent -----------------------------------------------------------------

  /** The loop does not ask for the next batch while the last one is being recorded. */
  predicate Waits(s: System, c: Consumer) { InHand(s.consumer) && !InHand(c) && !(s.handed && s.store.writer.Idle?) }

  /** Event e is a step of the consumer, and it happens. */
  predicate Happens(enabled: bool, s: System, e: Event) {
    e.ConsumerStep? && e.event.OfFlight? == s.consumer.Flight? && !Waits(s, ConsumerNext(enabled, s.consumer, e.event))
  }

  lemma HappensMeans(cfg: Config, enabled: bool, s: System, e: Event)
    ensures Next(cfg, enabled, s, e).consumer ==
            if Happens(enabled, s, e) then ConsumerNext(enabled, s.consumer, e.event) else s.consumer
  {
  }

  /** The steps of the Flight machine that happen in a run of the whole. */
  function FlightEvents(cfg: Config, enabled: bool, events: seq<Event>): seq<FlightConsumer.Event> {
    if events == [] then []
    else
      var s, e := After(cfg, enabled, FLIGHT, events[..|events| - 1]), events[|events| - 1];
      FlightEvents(cfg, enabled, events[..|events| - 1]) +
      if Happens(enabled, s, e) && e.event.OfFlight? then [e.event.flight] else []
  }

  function SolaceEvents(cfg: Config, enabled: bool, events: seq<Event>): seq<SolaceConsumer.Event> {
    if events == [] then []
    else
      var s, e := After(cfg, enabled, SOLACE, events[..|events| - 1]), events[|events| - 1];
      SolaceEvents(cfg, enabled, events[..|events| - 1]) +
      if Happens(enabled, s, e) && e.event.OfSolace? then [e.event.solace] else []
  }

  lemma {:induction false} FlightRuns(cfg: Config, enabled: bool, events: seq<Event>)
    ensures After(cfg, enabled, FLIGHT, events).consumer ==
            Flight(FlightConsumer.Steps(enabled, FlightConsumer.INITIAL, FlightEvents(cfg, enabled, events)))
  {
    if events == [] {
    } else {
      var init, e := events[..|events| - 1], events[|events| - 1];
      var before := FlightEvents(cfg, enabled, init);
      FlightRuns(cfg, enabled, init);
      HappensMeans(cfg, enabled, After(cfg, enabled, FLIGHT, init), e);
      if Happens(enabled, After(cfg, enabled, FLIGHT, init), e) {
        assert FlightEvents(cfg, enabled, events) == before + [e.event.flight];
        StepsSnoc(FlightConsumer.NextOf(enabled), FlightConsumer.INITIAL, before, e.event.flight);
      } else {
        assert FlightEvents(cfg, enabled, events) == before;
      }
    }
  }

  lemma {:induction false} SolaceRuns(cfg: Config, enabled: bool, events: seq<Event>)
    ensures After(cfg, enabled, SOLACE, events).consumer ==
            Solace(SolaceConsumer.Steps(enabled, SolaceConsumer.INITIAL, SolaceEvents(cfg, enabled, events)))
  {
    if events == [] {
    } else {
      var init, e := events[..|events| - 1], events[|events| - 1];
      var before := SolaceEvents(cfg, enabled, init);
      SolaceRuns(cfg, enabled, init);
      HappensMeans(cfg, enabled, After(cfg, enabled, SOLACE, init), e);
      if Happens(enabled, After(cfg, enabled, SOLACE, init), e) {
        assert SolaceEvents(cfg, enabled, events) == before + [e.event.solace];
        StepsSnoc(SolaceConsumer.NextOf(enabled), SolaceConsumer.INITIAL, before, e.event.solace);
      } else {
        assert SolaceEvents(cfg, enabled, events) == before;
      }
    }
  }

  predicate IsSolaceClose(e: Event) { e.ConsumerStep? && e.event.OfSolace? && e.event.solace.CloseStep? }

  /** The messages that arrive before the second step of the first close(). */
  function MessagesSent(events: seq<Event>): seq<Delivery> {
    if events == [] then []
    else
      var init, e := events[..|events| - 1], events[|events| - 1];
      MessagesSent(init) +
      if e.ConsumerStep? && e.event.OfSolace? && e.event.solace.OnMessage? && Tally(IsSolaceClose, init) < 2
      then [e.event.solace.d] else []
  }

  /** Callbacks and close() never wait for the recording. */
  lemma CallbacksHappen(enabled: bool, s: System, e: Event)
    requires s.consumer.Solace? && e.ConsumerStep? && e.event.OfSolace? && !e.event.solace.IngestStep?
    ensures Happens(enabled, s, e)
  {
    SolaceConsumer.OthersKeepIngest(enabled, s.consumer.solace, e.event.solace);
  }

  lemma {:induction false} MessagesReach(cfg: Config, enabled: bool, events: seq<Event>)
    ensures SolaceConsumer.Messages(SolaceEvents(cfg, enabled, events)) == MessagesSent(events)
    ensures Tally(SolaceConsumer.IsCloseStep, SolaceEvents(cfg, enabled, events)) == Tally(IsSolaceClose, events)
  {
    if events == [] {
    } else {
      var init, e := events[..|events| - 1], events[|events| - 1];
      var s, before := After(cfg, enabled, SOLACE, init), SolaceEvents(cfg, enabled, init);
      MessagesReach(cfg, enabled, init);
      SolaceRuns(cfg, enabled, init);
      if Happens(enabled, s, e) {
        assert SolaceEvents(cfg, enabled, events) == before + [e.event.solace];
        SolaceConsumer.MessagesSnoc(before, e.event.solace);
        TallySnoc(SolaceConsumer.IsCloseStep, before, e.event.solace);
      } else {
        assert SolaceEvents(cfg, enabled, events) == before;
        if e.ConsumerStep? && e.event.OfSolace? && !e.event.solace.IngestStep? { CallbacksHappen(enabled, s, e); }
      }
    }
  }

  /** What has been yielded is what the server or the broker sent: the chunks that arrived on a
      stream nobody had cancelled; the first of the messages that arrived before close() put its
      first sentinel, and all of them once the loop has been left cleanly. */
  lemma YieldedIsSent(cfg: Config, enabled: bool, events: seq<Event>)
    ensures Yielded(After(cfg, enabled, FLIGHT, events).consumer) ==
            FlightConsumer.Received(enabled, FlightEvents(cfg, enabled, events))
    ensures var c := After(cfg, enabled, SOLACE, events).consumer;
            && c.Solace? && Yielded(c) <= MessagesSent(events)
            && (c.solace.ingest == SolaceConsumer.Exited(Closed) ==> Yielded(c) == MessagesSent(events))
  {
    FlightRuns(cfg, enabled, events);
    FlightConsumer.YieldedIsReceived(enabled, FlightEvents(cfg, enabled, events));
    SolaceRuns(cfg, enabled, events);
    SolaceConsumer.HandOffIsFifo(enabled, SolaceEvents(cfg, enabled, events));
    MessagesReach(cfg, enabled, events);
  }

  // ---- what readers see --------------------------------------------------------------------------

  lemma PublishedBounds(cfg: Config, enabled: bool, s: System)
    requires Inv(cfg, enabled, s)
    ensures var yielded := Yielded(s.consumer);
            && |Accepted(Recorded(yielded, InHand(s.consumer)))| <= s.store.published <= |Accepted(yielded)|
            && s.store.batches <= Accepted(yielded)
            && s.store.published <= |s.store.batches|
  {
    if InHand(s.consumer) { AcceptedLast(Yielded(s.consumer)); }
  }

  lemma FedIsSeen(cfg: Config, store: SnapshotReads.System, fed: seq<seq<Cells>>, limit: int)
    requires SnapshotReads.Inv(cfg, store) && store.batches <= fed
    ensures var now := SnapshotReads.SeenNow(cfg, store, limit);
            store.published <= |fed| && Shows(cfg.keyColumns, Flatten(fed[..store.published]), limit, now.0, now.1)
  {
    SnapshotReads.PublishedIsShown(cfg, store, limit);
    assert store.batches[..store.published] == fed[..store.published];
  }

  lemma SeenFollows(cfg: Config, enabled: bool, s: System, limit: int)
    requires Inv(cfg, enabled, s)
    ensures var yielded, seen := Accepted(Yielded(s.consumer)), s.store.published;
            && |Accepted(Recorded(Yielded(s.consumer), InHand(s.consumer)))| <= seen <= |yielded|
            && var now := SnapshotReads.SeenNow(cfg, s.store, limit);
               Shows(cfg.keyColumns, Flatten(yielded[..seen]), limit, now.0, now.1)
  {
    PublishedBounds(cfg, enabled, s);
    FedIsSeen(cfg, s.store, Accepted(Yielded(s.consumer)), limit);
  }

  /** Whatever transport, close(), ingest thread and readers interleave, a reader that takes the
      snapshot now is shown the rows of the first batches yielded that converted: at least all but
      the one in hand, at most all of them. */
  lemma ReadersFollowConsumer(cfg: Config, enabled: bool, transport: Transport, events: seq<Event>, limit: int)
    ensures var s := After(cfg, enabled, transport, events);
            var yielded, seen := Accepted(Yielded(s.consumer)), s.store.published;
            && |Accepted(Recorded(Yielded(s.consumer), InHand(s.consumer)))| <= seen <= |yielded|
            && var now := SnapshotReads.SeenNow(cfg, s.store, limit);
               Shows(cfg.keyColumns, Flatten(yielded[..seen]), limit, now.0, now.1)
  {
    AfterInv(cfg, enabled, transport, events);
    SeenFollows(cfg, enabled, After(cfg, enabled, transport, events), limit);
  }

  /** Reply i shows the rows of a prefix of the batches yielded that converted: it holds every
      one whose recording had returned at the call and none begun after the answer, and no less
      than any reply given before the call. */
  ghost predicate Follows(cfg: Config, s: System, i: nat)
    requires i < |s.store.replies|
  {
    var yielded, y := Accepted(Yielded(s.consumer)), s.store.replies[i];
    && y.finished <= y.version <= y.started <= |yielded|
    && Shows(cfg.keyColumns, Flatten(yielded[..y.version]), y.limit, y.rows, y.total)
    && y.answered <= i
    && forall j :: 0 <= j < y.answered ==> s.store.replies[j].version <= y.version
  }

  lemma ReplyFollows(cfg: Config, enabled: bool, s: System, i: nat)
    requires Inv(cfg, enabled, s) && i < |s.store.replies|
    ensures Follows(cfg, s, i)
  {
    PublishedBounds(cfg, enabled, s);
    SnapshotReads.ReplyIsShown(cfg, s.store, i);
    var y := s.store.replies[i];
    assert s.store.batches[..y.version] == Accepted(Yielded(s.consumer))[..y.version];
  }

  /** Every answer ever given follows the consumer. */
  lemma AnswersFollowConsumer(cfg: Config, enabled: bool, transport: Transport, events: seq<Event>)
    ensures var s := After(cfg, enabled, transport, events);
            forall i: nat :: i < |s.store.replies| ==> Follows(cfg, s, i)
  {
    var s := After(cfg, enabled, transport, events);
    AfterInv(cfg, enabled, transport, events);
    forall i: nat | i < |s.store.replies| ensures Follows(cfg, s, i) {
      ReplyFollows(cfg, enabled, s, i);
    }
  }

  // ---- one request over the schedule ---------------------------------------------------------------

  predicate OfReader(e: Event, r: nat) { e.StoreStep? && SnapshotReads.OfReader(e.access, r) }

  lemma AfterSnoc(cfg: Config, enabled: bool, transport: Transport, events: seq<Event>, e: Event)
    ensures After(cfg, enabled, transport, events + [e]) ==
            Next(cfg, enabled, After(cfg, enabled, transport, events), e)
  {
    StepsSnoc(NextOf(cfg, enabled), After(cfg, enabled, transport, []), events, e);
  }

  lemma AfterAppend(cfg: Config, enabled: bool, transport: Transport, a: seq<Event>, b: seq<Event>)
    ensures After(cfg, enabled, transport, a + b) == Steps(NextOf(cfg, enabled), After(cfg, enabled, transport, a), b)
  {
    StepsAppend(NextOf(cfg, enabled), After(cfg, enabled, transport, []), a, b);
  }

  lemma OthersKeepReader(cfg: Config, enabled: bool, s: System, e: Event, r: nat)
    requires !OfReader(e, r)
    ensures SnapshotReads.ReaderAt(Next(cfg, enabled, s, e).store, r) == SnapshotReads.ReaderAt(s.store, r)
  {
    if e.StoreStep? && SnapshotReads.Enabled(s.store, e.access) {
      SnapshotReads.OthersKeepReader(cfg, s.store, e.access, r);
    }
  }

  lemma {:induction false} ReaderWaits(cfg: Config, enabled: bool, s: System, events: seq<Event>, r: nat)
    requires forall e :: e in events ==> !OfReader(e, r)
    ensures SnapshotReads.ReaderAt(Steps(NextOf(cfg, enabled), s, events).store, r) ==
            SnapshotReads.ReaderAt(s.store, r)
  {
    if events == [] {
    } else {
      var init, e := events[..|events| - 1], events[|events| - 1];
      ReaderWaits(cfg, enabled, s, init, r);
      OthersKeepReader(cfg, enabled, Steps(NextOf(cfg, enabled), s, init), e, r);
    }
  }

  /** A request up to the moment the reader takes the snapshot, and up to its response. */
  function Asked(past: seq<Event>, r: nat, limit: int, waiting: seq<Event>): seq<Event> {
    past + [StoreStep(SnapshotReads.Call(r, limit))] + waiting
  }

  function Taken(asked: seq<Event>, r: nat, holding: seq<Event>): seq<Event> {
    asked + [StoreStep(SnapshotReads.TakeSnapshot(r))] + holding
  }

  lemma RequestAsked(cfg: Config, enabled: bool, transport: Transport, past: seq<Event>, r: nat, limit: int,
                     waiting: seq<Event>)
    requires SnapshotReads.ReaderAt(After(cfg, enabled, transport, past).store, r).Absent?
    requires forall e :: e in waiting ==> !OfReader(e, r)
    ensures var h := SnapshotReads.ReaderAt(After(cfg, enabled, transport, Asked(past, r, limit, waiting)).store, r);
            h.Called? && h.limit == limit
  {
    var call := StoreStep(SnapshotReads.Call(r, limit));
    AfterSnoc(cfg, enabled, transport, past, call);
    ReaderWaits(cfg, enabled, After(cfg, enabled, transport, past + [call]), waiting, r);
    AfterAppend(cfg, enabled, transport, past + [call], waiting);
  }

  lemma RequestTaken(cfg: Config, enabled: bool, transport: Transport, asked: seq<Event>, r: nat, holding: seq<Event>)
    requires SnapshotReads.ReaderAt(After(cfg, enabled, transport, asked).store, r).Called?
    requires forall e :: e in holding ==> !OfReader(e, r)
    ensures var s := After(cfg, enabled, transport, asked).store;
            var h := SnapshotReads.ReaderAt(After(cfg, enabled, transport, Taken(asked, r, holding)).store, r);
            h.Holding? && h.limit == SnapshotReads.ReaderAt(s, r).limit && h.version == s.published
  {
    var take := StoreStep(SnapshotReads.TakeSnapshot(r));
    AfterSnoc(cfg, enabled, transport, asked, take);
    ReaderWaits(cfg, enabled, After(cfg, enabled, transport, asked + [take]), holding, r);
    AfterAppend(cfg, enabled, transport, asked + [take], holding);
  }

  lemma HeldFollows(cfg: Config, store: SnapshotReads.System, r: nat, fed: seq<seq<Cells>>)
    requires SnapshotReads.Inv(cfg, store) && SnapshotReads.ReaderAt(store, r).Holding? && store.batches <= fed
    ensures var h := SnapshotReads.ReaderAt(store, r);
            var replies := SnapshotReads.Step(cfg, store, SnapshotReads.Respond(r)).replies;
            && h.version <= |fed|
            && replies != [] && replies[..|replies| - 1] == store.replies
            && var y := replies[|replies| - 1];
               y.limit == h.limit && Shows(cfg.keyColumns, Flatten(fed[..h.version]), h.limit, y.rows, y.total)
  {
    var h := SnapshotReads.ReaderAt(store, r);
    SnapshotReads.HeldIsAnswered(cfg, store, r);
    assert store.batches[..h.version] == fed[..h.version];
  }

  lemma ResponseReaches(cfg: Config, enabled: bool, t: System, r: nat)
    requires SnapshotReads.ReaderAt(t.store, r).Holding?
    ensures Next(cfg, enabled, t, StoreStep(SnapshotReads.Respond(r))).store ==
            SnapshotReads.Step(cfg, t.store, SnapshotReads.Respond(r))
  {
  }

  /** From state t one reply more is given: for limit, it shows the rows of the first seen of the
      batches yielded that converted. */
  ghost predicate Answers(cfg: Config, t: System, replies: seq<SnapshotReads.Reply>, limit: int, seen: nat) {
    && seen <= |Accepted(Yielded(t.consumer))|
    && replies != [] && replies[..|replies| - 1] == t.store.replies
    && var y := replies[|replies| - 1];
       && y.limit == limit
       && Shows(cfg.keyColumns, Flatten(Accepted(Yielded(t.consumer))[..seen]), limit, y.rows, y.total)
  }

  lemma RequestEnds(cfg: Config, enabled: bool, t: System, r: nat)
    requires Inv(cfg, enabled, t) && SnapshotReads.ReaderAt(t.store, r).Holding?
    ensures var h := SnapshotReads.ReaderAt(t.store, r);
            var replies := Next(cfg, enabled, t, StoreStep(SnapshotReads.Respond(r))).store.replies;
            Answers(cfg, t, replies, h.limit, h.version)
  {
    ResponseReaches(cfg, enabled, t, r);
    assert t.store.batches <= Accepted(Yielded(t.consumer)) by { PublishedBounds(cfg, enabled, t); }
    HeldFollows(cfg, t.store, r, Accepted(Yielded(t.consumer)));
  }

  /** A request over the schedule of the whole: the reader is called with a limit, takes the
      snapshot and responds, whatever happens in between. Its reply shows, for the limit of the
      call, the rows of the first batches yielded that converted: those published when it took
      the snapshot, at least all but the one then in hand. */
  lemma RequestFollowsConsumer(cfg: Config, enabled: bool, transport: Transport, past: seq<Event>, r: nat, limit: int,
                               waiting: seq<Event>, holding: seq<Event>)
    requires SnapshotReads.ReaderAt(After(cfg, enabled, transport, past).store, r).Absent?
    requires forall e :: e in waiting + holding ==> !OfReader(e, r)
    ensures var asked := Asked(past, r, limit, waiting);
            var s, t := After(cfg, enabled, transport, asked), After(cfg, enabled, transport, Taken(asked, r, holding));
            var respond := StoreStep(SnapshotReads.Respond(r));
            && |Accepted(Recorded(Yielded(s.consumer), InHand(s.consumer)))| <= s.store.published
            && Answers(cfg, t, After(cfg, enabled, transport, Taken(asked, r, holding) + [respond]).store.replies,
                       limit, s.store.published)
  {
    var asked := Asked(past, r, limit, waiting);
    RequestAsked(cfg, enabled, transport, past, r, limit, waiting);
    RequestTaken(cfg, enabled, transport, asked, r, holding);
    AfterSnoc(cfg, enabled, transport, Taken(asked, r, holding), StoreStep(SnapshotReads.Respond(r)));
    AfterInv(cfg, enabled, transport, asked);
    AfterInv(cfg, enabled, transport, Taken(asked, r, holding));
    PublishedBounds(cfg, enabled, After(cfg, enabled, transport, asked));
    RequestEnds(cfg, enabled, After(cfg, enabled, transport, Taken(asked, r, holding)), r);
  }

  // ---- the loop goes on ----------------------------------------------------------------------------

  lemma {:induction false} WriterReturns(cfg: Config, enabled: bool, s: System) returns (events: seq<Event>)
    ensures Steps(NextOf(cfg, enabled), s, events).store.writer.Idle?
    ensures var t := Steps(NextOf(cfg, enabled), s, events); t.consumer == s.consumer && t.handed == s.handed
    decreases SnapshotReads.StepsLeft(s.store.writer)
  {
    events := [];
    if !s.store.writer.Idle? {
      var write := StoreStep(SnapshotReads.WriterStep);
      var t := Next(cfg, enabled, s, write);
      SnapshotReads.WriterProgress(cfg, s.store);
      var rest := WriterReturns(cfg, enabled, t);
      events := FirstThen(NextOf(cfg, enabled), s, write, rest);
    }
  }

  /** A batch in hand never holds up the loop for good: the ingest thread left alone records it,
      and may then ask for the next. */
  lemma RecordingEnds(cfg: Config, enabled: bool, s: System) returns (events: seq<Event>)
    requires Inv(cfg, enabled, s) && InHand(s.consumer)
    ensures var t := Steps(NextOf(cfg, enabled), s, events);
            t.consumer == s.consumer && forall c :: !Waits(t, c) && AfterConsumer(t, c).consumer == c
  {
    if s.handed {
      events := WriterReturns(cfg, enabled, s);
    } else {
      var recording := Next(cfg, enabled, s, Record);
      assert recording.handed && recording.consumer == s.consumer;
      var rest := WriterReturns(cfg, enabled, recording);
      events := FirstThen(NextOf(cfg, enabled), s, Record, rest);
    }
  }

  // ---- after the loop ----------------------------------------------------------------------------------

  lemma AllSeen(cfg: Config, enabled: bool, s: System, limit: int)
    requires Inv(cfg, enabled, s) && !InHand(s.consumer)
    ensures var now := SnapshotReads.SeenNow(cfg, s.store, limit);
            Shows(cfg.keyColumns, Flatten(Accepted(Yielded(s.consumer))), limit, now.0, now.1)
  {
    SeenFollows(cfg, enabled, s, limit);
    var yielded := Accepted(Yielded(s.consumer));
    assert yielded[..s.store.published] == yielded;
  }

  /** Once the loop has been left readers are shown every row that was sent and converted: of the
      chunks that arrived on a stream nobody had cancelled; after a clean exit from Solace of the
      messages that arrived before close() put its first sentinel. */
  lemma AllIsSeenAfterExit(cfg: Config, enabled: bool, events: seq<Event>, limit: int)
    ensures var s := After(cfg, enabled, FLIGHT, events);
            var received := FlightConsumer.Received(enabled, FlightEvents(cfg, enabled, events));
            var now := SnapshotReads.SeenNow(cfg, s.store, limit);
            LoopExited(s.consumer) ==> Shows(cfg.keyColumns, Flatten(Accepted(received)), limit, now.0, now.1)
    ensures var s := After(cfg, enabled, SOLACE, events);
            var now := SnapshotReads.SeenNow(cfg, s.store, limit);
            s.consumer.Solace? && s.consumer.solace.ingest == SolaceConsumer.Exited(Closed) ==>
              Shows(cfg.keyColumns, Flatten(Accepted(MessagesSent(events))), limit, now.0, now.1)
  {
    YieldedIsSent(cfg, enabled, events);
    AfterInv(cfg, enabled, FLIGHT, events);
    AfterInv(cfg, enabled, SOLACE, events);
    var f, s := After(cfg, enabled, FLIGHT, events), After(cfg, enabled, SOLACE, events);
    if LoopExited(f.consumer) { FlightRuns(cfg, enabled, events); AllSeen(cfg, enabled, f, limit); }
    if LoopExited(s.consumer) { SolaceRuns(cfg, enabled, events); AllSeen(cfg, enabled, s, limit); }
  }
}
