/** The Solace transport: message callbacks, close() and the ingest thread over one queue.

Models _BatchHandler.on_message and SolaceBatchConsumer.batches/close of
ingestion/solace/client.py, driven by the loop of services/stream_ingest.py. Callbacks put
batches on an unbounded FIFO queue, close() puts the sentinel None, and the generator gets
one item at a time. Every step below is one read or write of something shared. */
module SolaceConsumer {
  import opened Lists
  import opened IngestTrace
  import opened Machine
  import opened ConsumerLog

  /** A batch put by a callback, or the sentinel. */
  type Item = Option<Delivery>

  /** The next thing the ingest thread does. */
  datatype Ingest =
    | Calling        // the loop calls batches()
    | BuildReceiver  // lines 105-110, reading _service
    | KeepReceiver   // line 105, assigning _receiver
    | StartReceiver  // line 111
    | Subscribe      // line 112
    | Get            // line 114: waits until the queue is not empty
    | Holding        // an item has been yielded to the loop, which records it
    | Failed         // the loop's except clause
    | Sleeping
    | Exited(exit: Exit)

  /** The next thing close() does. */
  datatype Closer =
    | NotClosing
    | PutSentinel   // line 121
    | Terminate     // line 122: reads _receiver
    | DropReceiver  // line 124
    | Disconnect    // line 125: reads _service
    | DropService   // line 127

  /** enqueued records everything ever put. */
  datatype System = System(queue: seq<Item>, service: bool, receiver: bool, ingest: Ingest, closer: Closer,
                           enqueued: seq<Item>, log: Log)

  /** After __aenter__: connected, no receiver yet. */
  const INITIAL := System([], true, false, Calling, NotClosing, [], NO_CALLS)

  /** OnMessage is one put by a callback: a message of several batches is several events, one
      that turns out malformed simply stops putting. An ingest step carries whether the SDK
      call it makes succeeds. */
  datatype Event = OnMessage(d: Delivery) | CloseStep | IngestStep(succeeds: bool)

  function Put(s: System, item: Item): System {
    s.(queue := s.queue + [item], enqueued := s.enqueued + [item])
  }

  /** An SDK call on a field that has been cleared raises, and so does one the SDK fails. */
  function SetupNext(s: System, succeeds: bool, next: Ingest): System {
    if succeeds then s.(ingest := next) else s.(log := End(s.log, Raised), ingest := Failed)
  }

  /** Lines 114-117: nothing happens while the queue is empty. */
  function GetNext(s: System): System {
    if s.queue == [] then s
    else if s.queue[0].Some? then
      s.(queue := s.queue[1..], log := Yield(s.log, s.queue[0].value), ingest := Holding)
    else
      s.(queue := s.queue[1..], log := End(s.log, Returned), ingest := Exited(Closed))
  }

  /** The except clause: counts, and gives up or sleeps. */
  function FailNext(enabled: bool, s: System): System {
    var log := Count(s.log);
    s.(log := log, ingest := if GivesUp(enabled, log) then Exited(ShutdownRequested) else Sleeping)
  }

  function IngestNext(enabled: bool, s: System, succeeds: bool): System {
    match s.ingest
    case Calling => s.(ingest := BuildReceiver, log := Begin(s.log))
    case BuildReceiver => SetupNext(s, s.service && succeeds, KeepReceiver)
    case KeepReceiver => s.(receiver := true, ingest := StartReceiver)
    case StartReceiver => SetupNext(s, s.receiver && succeeds, Subscribe)
    case Subscribe => SetupNext(s, s.receiver && succeeds, Get)
    case Get => GetNext(s)
    case Holding => s.(ingest := Get)
    case Failed => FailNext(enabled, s)
    case Sleeping => s.(ingest := Calling)
    case Exited(_) => s
  }

  function CloseNext(s: System): System {
    match s.closer
    case NotClosing => s.(closer := PutSentinel) // line 120 sets the reported state
    case PutSentinel => Put(s, None).(closer := Terminate)
    case Terminate => s.(closer := if s.receiver then DropReceiver else Disconnect)
    case DropReceiver => s.(receiver := false, closer := Disconnect)
    case Disconnect => s.(closer := if s.service then DropService else NotClosing)
    case DropService => s.(service := false, closer := NotClosing)
  }

  function Next(enabled: bool, s: System, e: Event): System {
    match e
    case OnMessage(d) => Put(s, Some(d))
    case CloseStep => CloseNext(s)
    case IngestStep(succeeds) => IngestNext(enabled, s, succeeds)
  }

  function NextOf(enabled: bool): (System, Event) -> System { (s, e) => Next(enabled, s, e) }

  function Steps(enabled: bool, s: System, events: seq<Event>): System {
    Machine.Steps(NextOf(enabled), s, events)
  }

  // ---- the invariant -----------------------------------------------------------------------

  function PhaseOf(i: Ingest): Phase {
    match i
    case Calling => Between
    case Sleeping => Between
    case Failed => Raising
    case Exited(exit) => Left(exit)
    case _ => Running
  }

  /** The batches put before the first sentinel. */
  function BeforeSentinel(items: seq<Item>): seq<Delivery> {
    if items == [] || items[0].None? then [] else [items[0].value] + BeforeSentinel(items[1..])
  }

  function Taken(yielded: seq<Delivery>): seq<Item> {
    seq(|yielded|, i requires 0 <= i < |yielded| => Some(yielded[i]))
  }

  /** What has been taken off the queue is what was yielded, then the sentinel if the generator
      has returned; the rest is still on it. */
  ghost predicate QueueInv(s: System) {
    s.enqueued == Taken(s.log.yielded) + (if s.ingest == Exited(Closed) then [None] else []) + s.queue
  }

  /** The sentinel is on the queue before close() touches the receiver, and stays there until
      the generator takes it. */
  ghost predicate SentinelInv(s: System) {
    !s.service || (s.closer != NotClosing && s.closer != PutSentinel) ==> None in s.queue || s.ingest == Exited(Closed)
  }

  ghost predicate Inv(enabled: bool, s: System) {
    LogInv(enabled, s.log, PhaseOf(s.ingest)) && QueueInv(s) && SentinelInv(s)
  }

  lemma TakenSnoc(yielded: seq<Delivery>, d: Delivery)
    ensures Taken(yielded + [d]) == Taken(yielded) + [Some(d)]
  {
  }

  /** What a step of the ingest thread does to the log. */
  function MoveOf(s: System, succeeds: bool): Move {
    match s.ingest
    case Calling => Begins
    case BuildReceiver => if s.service && succeeds then Nothing else Ends(true)
    case StartReceiver => if s.receiver && succeeds then Nothing else Ends(true)
    case Subscribe => if s.receiver && succeeds then Nothing else Ends(true)
    case Get => if s.queue == [] then Nothing else if s.queue[0].Some? then Yields(s.queue[0].value) else Ends(false)
    case Failed => Counts
    case _ => Nothing
  }

  lemma MoveLogs(enabled: bool, s: System, succeeds: bool)
    ensures IngestNext(enabled, s, succeeds).log == Moved(s.log, MoveOf(s, succeeds))
  {
  }

  lemma MoveFits(enabled: bool, s: System, succeeds: bool)
    ensures PhaseOf(IngestNext(enabled, s, succeeds).ingest) ==
            PhaseAfter(enabled, s.log, PhaseOf(s.ingest), MoveOf(s, succeeds))
  {
  }

  lemma IngestMoves(enabled: bool, s: System, succeeds: bool)
    ensures var t, m, p := IngestNext(enabled, s, succeeds), MoveOf(s, succeeds), PhaseOf(s.ingest);
            Allowed(p, m) && t.log == Moved(s.log, m) && PhaseOf(t.ingest) == PhaseAfter(enabled, s.log, p, m)
  {
    MoveLogs(enabled, s, succeeds);
    MoveFits(enabled, s, succeeds);
  }

  /** Only Get touches the queue. */
  lemma IngestQueue(enabled: bool, s: System, succeeds: bool)
    ensures var t, m := IngestNext(enabled, s, succeeds), MoveOf(s, succeeds);
            && t.enqueued == s.enqueued && t.service == s.service && t.closer == s.closer
            && (if m.Yields? then s.queue == [Some(m.d)] + t.queue
                else if m == Ends(false) then s.queue == [None] + t.queue
                else t.queue == s.queue)
            && (t.ingest == Exited(Closed) <==> s.ingest == Exited(Closed) || m == Ends(false))
  {
  }

  lemma IngestKeepsQueue(s: System, t: System, m: Move)
    requires QueueInv(s) && t.enqueued == s.enqueued && s.ingest != Exited(Closed)
    requires t.log.yielded == if m.Yields? then s.log.yielded + [m.d] else s.log.yielded
    requires if m.Yields? then s.queue == [Some(m.d)] + t.queue
             else if m == Ends(false) then s.queue == [None] + t.queue
             else t.queue == s.queue
    requires t.ingest == Exited(Closed) <==> m == Ends(false)
    ensures QueueInv(t)
  {
    if m.Yields? { TakenSnoc(s.log.yielded, m.d); }
  }

  lemma NextKeepsInv(enabled: bool, s: System, e: Event)
    requires Inv(enabled, s)
    ensures Inv(enabled, Next(enabled, s, e))
  {
    var t := Next(enabled, s, e);
    if e.IngestStep? {
      if s.ingest != Exited(Closed) { IngestKeepsInv(enabled, s, e.succeeds); }
    } else {
      OthersKeepIngest(enabled, s, e);
      PutKeepsQueue(s, t);
    }
  }

  lemma IngestKeepsInv(enabled: bool, s: System, succeeds: bool)
    requires Inv(enabled, s) && s.ingest != Exited(Closed)
    ensures Inv(enabled, IngestNext(enabled, s, succeeds))
  {
    var t, m := IngestNext(enabled, s, succeeds), MoveOf(s, succeeds);
    IngestMoves(enabled, s, succeeds);
    IngestQueue(enabled, s, succeeds);
    MoveKeepsInv(enabled, s.log, PhaseOf(s.ingest), m);
    IngestKeepsQueue(s, t, m);
    assert SentinelInv(t);
  }

  lemma OthersKeepIngest(enabled: bool, s: System, e: Event)
    requires !e.IngestStep?
    ensures var t := Next(enabled, s, e);
            && t.ingest == s.ingest && t.log == s.log
            && ((t.queue == s.queue && t.enqueued == s.enqueued) ||
                exists item :: t.queue == s.queue + [item] && t.enqueued == s.enqueued + [item])
            && (SentinelInv(s) ==> SentinelInv(t))
  {
  }

  lemma PutKeepsQueue(s: System, t: System)
    requires QueueInv(s) && t.ingest == s.ingest && t.log == s.log
    requires (t.queue == s.queue && t.enqueued == s.enqueued) ||
             exists item :: t.queue == s.queue + [item] && t.enqueued == s.enqueued + [item]
    ensures QueueInv(t)
  {
  }

  lemma {:induction false} AlwaysInv(enabled: bool, events: seq<Event>)
    ensures Inv(enabled, Steps(enabled, INITIAL, events))
  {
    if events == [] {
    } else {
      AlwaysInv(enabled, events[..|events| - 1]);
      NextKeepsInv(enabled, Steps(enabled, INITIAL, events[..|events| - 1]), events[|events| - 1]);
    }
  }

  // ---- FIFO ------------------------------------------------------------------------------

  lemma {:induction false} BeforeSentinelOf(yielded: seq<Delivery>, rest: seq<Item>)
    ensures BeforeSentinel(Taken(yielded) + rest) == yielded + BeforeSentinel(rest)
  {
    var items := Taken(yielded) + rest;
    if yielded == [] {
      assert items == rest;
    } else {
      BeforeSentinelOf(yielded[1..], rest);
      assert items[0] == Some(yielded[0]);
      assert items[1..] == Taken(yielded[1..]) + rest;
      assert [yielded[0]] + (yielded[1..] + BeforeSentinel(rest)) == yielded + BeforeSentinel(rest);
    }
  }

  // ---- a call alone ----------------------------------------------------------------------------

  /** A call left alone builds a receiver, keeps it, starts it, subscribes and reads the queue; it
      raises at the first of these that fails, and without the service at once (lines 105-114). */
  lemma CallSubscribes(enabled: bool, s: System, built: bool, started: bool, subscribed: bool)
    requires s.ingest == BuildReceiver
    ensures var first := IngestNext(enabled, s, built);
            var starting := IngestNext(enabled, first, true);
            var second := IngestNext(enabled, starting, started);
            if !s.service || !built then first == s.(ingest := Failed, log := End(s.log, Raised))
            else
              && starting == s.(ingest := StartReceiver, receiver := true)
              && (if !started then second == starting.(ingest := Failed, log := End(s.log, Raised))
                  else IngestNext(enabled, second, subscribed) ==
                       if subscribed then starting.(ingest := Get)
                       else starting.(ingest := Failed, log := End(s.log, Raised)))
  {
  }

  // ---- what was put --------------------------------------------------------------------------

  predicate IsCloseStep(e: Event) { e.CloseStep? }

  /** What a run puts on the queue: every message, and a sentinel at line 121 of each close(). */
  function Puts(enabled: bool, events: seq<Event>): seq<Item> {
    if events == [] then []
    else
      var init := events[..|events| - 1];
      Puts(enabled, init) + PutBy(Steps(enabled, INITIAL, init), events[|events| - 1])
  }

  function PutBy(s: System, e: Event): seq<Item> {
    match e
    case OnMessage(d) => [Some(d)]
    case CloseStep => if s.closer == PutSentinel then [None] else []
    case IngestStep(_) => []
  }

  /** The messages that arrive before the second step of the first close(), which puts the
      sentinel. */
  function Messages(events: seq<Event>): seq<Delivery> {
    if events == [] then []
    else
      var init, e := events[..|events| - 1], events[|events| - 1];
      Messages(init) + if e.OnMessage? && Tally(IsCloseStep, init) < 2 then [e.d] else []
  }

  lemma MessagesSnoc(events: seq<Event>, e: Event)
    ensures Messages(events + [e]) ==
            Messages(events) + if e.OnMessage? && Tally(IsCloseStep, events) < 2 then [e.d] else []
  {
    assert (events + [e])[..|events|] == events;
  }

  /** The first two steps of close(), and nothing on the queue but messages until they are done. */
  ghost predicate PutInv(s: System, closeSteps: nat, messages: seq<Delivery>) {
    && (closeSteps == 0 ==> s.closer == NotClosing)
    && (closeSteps == 1 ==> s.closer == PutSentinel)
    && (closeSteps < 2 ==> s.enqueued == Taken(messages))
    && (closeSteps >= 2 ==> Taken(messages) + [None] <= s.enqueued)
  }

  lemma PutStep(enabled: bool, s: System, e: Event, closeSteps: nat, messages: seq<Delivery>)
    requires PutInv(s, closeSteps, messages)
    ensures PutInv(Next(enabled, s, e), closeSteps + if e.CloseStep? then 1 else 0,
                   if e.OnMessage? && closeSteps < 2 then messages + [e.d] else messages)
    ensures Next(enabled, s, e).enqueued == s.enqueued + PutBy(s, e)
  {
    match e
    case IngestStep(succeeds) => IngestQueue(enabled, s, succeeds);
    case OnMessage(d) => TakenSnoc(messages, d);
    case CloseStep =>
  }

  /** In every run enqueued is exactly what was put, in order. */
  lemma {:induction false} EnqueuedIsPut(enabled: bool, events: seq<Event>)
    ensures var s := Steps(enabled, INITIAL, events);
            s.enqueued == Puts(enabled, events) && PutInv(s, Tally(IsCloseStep, events), Messages(events))
  {
    if events == [] {
      assert Taken([]) == [];
    } else {
      var init, e := events[..|events| - 1], events[|events| - 1];
      var s := Steps(enabled, INITIAL, init);
      EnqueuedIsPut(enabled, init);
      PutStep(enabled, s, e, Tally(IsCloseStep, init), Messages(init));
      assert Messages(init) + [] == Messages(init);
    }
  }

  lemma MessagesArePut(s: System, closeSteps: nat, messages: seq<Delivery>)
    requires PutInv(s, closeSteps, messages)
    ensures BeforeSentinel(s.enqueued) == messages
    ensures None in s.enqueued <==> closeSteps >= 2
  {
    if closeSteps < 2 {
      BeforeSentinelOf(messages, []);
      assert Taken(messages) + [] == Taken(messages);
    } else {
      var rest := s.enqueued[|messages|..];
      assert s.enqueued == Taken(messages) + rest;
      BeforeSentinelOf(messages, rest);
      assert s.enqueued[|messages|] == None;
    }
  }

  /** In every interleaving of callbacks, close() and the ingest thread, what has been yielded
      is a prefix of the messages that arrived before close() put its first sentinel, each once,
      unchanged and in order; when the loop has exited cleanly it is exactly those messages,
      however often close() ran and whatever arrived later. */
  lemma HandOffIsFifo(enabled: bool, events: seq<Event>)
    ensures var s := Steps(enabled, INITIAL, events);
            && s.log.yielded <= Messages(events)
            && (s.ingest == Exited(Closed) ==> Tally(IsCloseStep, events) >= 2 && s.log.yielded == Messages(events))
    ensures var s := Steps(enabled, INITIAL, events);
            && s.log.yielded <= BeforeSentinel(s.enqueued)
            && (s.ingest == Exited(Closed) ==> None in s.enqueued && s.log.yielded == BeforeSentinel(s.enqueued))
  {
    var s := Steps(enabled, INITIAL, events);
    AlwaysInv(enabled, events);
    QueueIsFifo(s);
    EnqueuedIsPut(enabled, events);
    MessagesArePut(s, Tally(IsCloseStep, events), Messages(events));
  }

  lemma QueueIsFifo(s: System)
    requires QueueInv(s)
    ensures s.log.yielded <= BeforeSentinel(s.enqueued)
    ensures s.ingest == Exited(Closed) ==> None in s.enqueued && s.log.yielded == BeforeSentinel(s.enqueued)
  {
    var rest := (if s.ingest == Exited(Closed) then [None] else []) + s.queue;
    assert s.enqueued == Taken(s.log.yielded) + rest;
    BeforeSentinelOf(s.log.yielded, rest);
    if s.ingest == Exited(Closed) {
      assert rest[0] == None;
      assert s.enqueued[|s.log.yielded|] == rest[0];
    }
  }

  // ---- termination after close ---------------------------------------------------------------

  predicate IsIngestStep(e: Event) { e.IngestStep? }

  function IngestSteps(events: seq<Event>): nat { Tally(IsIngestStep, events) }

  /** Steps the ingest thread needs to reach the sentinel. */
  function StepsToSentinel(s: System): nat {
    match s.ingest
    case Get => 2 * |BeforeSentinel(s.queue)| + 1
    case Holding => 2 * |BeforeSentinel(s.queue)| + 2
    case _ => 0
  }

  lemma {:induction false} PutAfterSentinel(queue: seq<Item>, item: Item)
    requires None in queue
    ensures BeforeSentinel(queue + [item]) == BeforeSentinel(queue)
  {
    if queue[0].None? {
    } else {
      assert queue == [queue[0]] + queue[1..];
      PutAfterSentinel(queue[1..], item);
      assert (queue + [item])[1..] == queue[1..] + [item];
    }
  }

  predicate Draining(s: System) { (s.ingest == Get || s.ingest == Holding) && None in s.queue }

  lemma DrainingStep(enabled: bool, s: System, e: Event)
    requires Draining(s)
    ensures var t := Next(enabled, s, e);
            && (Draining(t) || t.ingest == Exited(Closed))
            && StepsToSentinel(t) + (if e.IngestStep? then 1 else 0) <= StepsToSentinel(s)
  {
    if e.IngestStep? {
      assert s.queue == [s.queue[0]] + s.queue[1..];
    } else if e.OnMessage? {
      PutAfterSentinel(s.queue, Some(e.d));
    } else if s.closer == PutSentinel {
      PutAfterSentinel(s.queue, None);
    }
  }

  /** Once the sentinel is on the queue of a running generator, the loop exits cleanly within
      two steps of its thread per batch ahead of the sentinel and one more, whatever the other
      threads do meanwhile. */
  lemma {:induction false} GeneratorDrains(enabled: bool, s: System, events: seq<Event>)
    requires Draining(s)
    ensures var t := Steps(enabled, s, events);
            && (Draining(t) || t.ingest == Exited(Closed))
            && (StepsToSentinel(t) + IngestSteps(events) <= StepsToSentinel(s) || t.ingest == Exited(Closed))
    ensures IngestSteps(events) >= StepsToSentinel(s) ==> Steps(enabled, s, events).ingest == Exited(Closed)
  {
    if events == [] {
    } else {
      var init, e := events[..|events| - 1], events[|events| - 1];
      GeneratorDrains(enabled, s, init);
      var before := Steps(enabled, s, init);
      if Draining(before) { DrainingStep(enabled, before, e); }
    }
  }

  // ---- what close() guarantees -----------------------------------------------------------------

  /** The generator is reading the queue, or has already returned. */
  predicate AtQueue(s: System) { s.ingest == Get || s.ingest == Holding || s.ingest == Exited(Closed) }

  /** Whatever the other threads do and the SDK answers, n steps of the ingest thread exit the
      loop cleanly. */
  ghost predicate AlwaysExits(enabled: bool, s: System, n: nat) {
    forall events :: IngestSteps(events) >= n ==> Steps(enabled, s, events).ingest == Exited(Closed)
  }

  lemma FailedStepNeverArrives(enabled: bool, s: System)
    requires !AtQueue(s)
    ensures !AtQueue(Next(enabled, s, IngestStep(false)))
  {
  }

  lemma {:induction false} FailingNeverArrives(enabled: bool, s: System, events: seq<Event>)
    requires !AtQueue(s) && Only(IngestStep(false), events)
    ensures !AtQueue(Steps(enabled, s, events))
  {
    if events == [] {
    } else {
      var init := events[..|events| - 1];
      FailingNeverArrives(enabled, s, init);
      FailedStepNeverArrives(enabled, Steps(enabled, s, init));
    }
  }

  lemma {:induction false} ExitedStays(enabled: bool, s: System, events: seq<Event>)
    requires s.ingest.Exited?
    ensures Steps(enabled, s, events).ingest == s.ingest
  {
    if events == [] {
    } else {
      ExitedStays(enabled, s, events[..|events| - 1]);
    }
  }

  /** Once close() has cleared _service, the loop is bound to exit cleanly if and only if its
      generator is reading the queue or has returned already. */
  lemma CleanExitExactly(enabled: bool, past: seq<Event>)
    requires !Steps(enabled, INITIAL, past).service
    ensures var s := Steps(enabled, INITIAL, past);
            AtQueue(s) <==> exists n: nat :: AlwaysExits(enabled, s, n)
  {
    var s := Steps(enabled, INITIAL, past);
    AlwaysInv(enabled, past);
    if AtQueue(s) {
      var n := StepsToSentinel(s);
      forall events | IngestSteps(events) >= n ensures Steps(enabled, s, events).ingest == Exited(Closed) {
        if s.ingest.Exited? { ExitedStays(enabled, s, events); } else { GeneratorDrains(enabled, s, events); }
      }
      assert AlwaysExits(enabled, s, n);
    } else {
      forall n: nat ensures !AlwaysExits(enabled, s, n) {
        TimesTally(IsIngestStep, IngestStep(false), n);
        FailingNeverArrives(enabled, s, Times(IngestStep(false), n));
      }
    }
  }

  lemma {:induction false} AtQueueStays(enabled: bool, s: System, events: seq<Event>)
    requires AtQueue(s)
    ensures AtQueue(Steps(enabled, s, events))
  {
    if events == [] {
    } else {
      AtQueueStays(enabled, s, events[..|events| - 1]);
    }
  }

  /** The condition at the call: when close() begins, every way it can go on to clear _service
      leaves a loop bound to exit cleanly if and only if the generator is then reading the
      queue or has returned. */
  lemma CloseGuaranteesExit(enabled: bool, past: seq<Event>)
    requires var s := Steps(enabled, INITIAL, past); s.service && s.closer == NotClosing
    ensures var s := Steps(enabled, INITIAL, past);
            AtQueue(s) <==>
            forall events :: !Steps(enabled, s, events).service ==>
              exists n: nat :: AlwaysExits(enabled, Steps(enabled, s, events), n)
  {
    var s := Steps(enabled, INITIAL, past);
    if AtQueue(s) {
      forall events | !Steps(enabled, s, events).service
        ensures exists n: nat :: AlwaysExits(enabled, Steps(enabled, s, events), n)
      {
        AtQueueStays(enabled, s, events);
        StepsAppend(NextOf(enabled), INITIAL, past, events);
        CleanExitExactly(enabled, past + events);
      }
    } else {
      var events := CloseAlone(enabled, s);
      StepsAppend(NextOf(enabled), INITIAL, past, events);
      CleanExitExactly(enabled, past + events);
    }
  }

  /** The closing thread has dropped the receiver before it comes to the service. */
  predicate Released(s: System) {
    AtQueue(s) && (!s.service || s.closer == Disconnect || s.closer == DropService ==> !s.receiver)
  }

  lemma ReleasedStep(enabled: bool, s: System, e: Event)
    requires Released(s)
    ensures Released(Next(enabled, s, e))
  {
  }

  /** A close() that begins while the generator reads the queue leaves neither receiver nor
      service, whatever runs in between. */
  lemma {:induction false} CloseReleases(enabled: bool, s: System, events: seq<Event>)
    requires AtQueue(s) && s.service && s.closer == NotClosing
    ensures var t := Steps(enabled, s, events); Released(t) && (!t.service ==> !t.receiver)
  {
    if events == [] {
    } else {
      CloseReleases(enabled, s, events[..|events| - 1]);
      ReleasedStep(enabled, Steps(enabled, s, events[..|events| - 1]), events[|events| - 1]);
    }
  }

  /** There is no receiver before a call of batches() has built one. */
  lemma {:induction false} ReceiverIsBuilt(enabled: bool, events: seq<Event>)
    ensures var s := Steps(enabled, INITIAL, events);
            (s.receiver ==> s.log.calls != []) && (s.log.calls == [] ==> s.ingest == Calling)
  {
    if events == [] {
    } else {
      ReceiverIsBuilt(enabled, events[..|events| - 1]);
      BuiltStep(enabled, Steps(enabled, INITIAL, events[..|events| - 1]), events[|events| - 1]);
    }
  }

  lemma BuiltStep(enabled: bool, s: System, e: Event)
    requires (s.receiver ==> s.log.calls != []) && (s.log.calls == [] ==> s.ingest == Calling)
    ensures var t := Next(enabled, s, e);
            (t.receiver ==> t.log.calls != []) && (t.log.calls == [] ==> t.ingest == Calling)
  {
  }

  /** A close() that nothing interrupts. */
  lemma CloseAlone(enabled: bool, s: System) returns (events: seq<Event>)
    requires s.service && s.closer == NotClosing
    ensures var t := Steps(enabled, s, events); !t.service && t.closer == NotClosing && t.ingest == s.ingest
    ensures Only(CloseStep, events) && (s.receiver ==> |events| == 6)
  {
    var rest := FinishClose(enabled, CloseNext(s));
    events := FirstThen(NextOf(enabled), s, CloseStep, rest);
  }

  lemma {:induction false} FinishClose(enabled: bool, s: System) returns (events: seq<Event>)
    requires s.service && s.closer != NotClosing
    ensures var t := Steps(enabled, s, events); !t.service && t.closer == NotClosing && t.ingest == s.ingest
    ensures Only(CloseStep, events)
    ensures s.receiver || s.closer == Disconnect || s.closer == DropService ==> |events| == CloseStepsLeft(s.closer)
    decreases CloseStepsLeft(s.closer)
  {
    var rest: seq<Event> := [];
    if CloseNext(s).service { rest := FinishClose(enabled, CloseNext(s)); }
    events := FirstThen(NextOf(enabled), s, CloseStep, rest);
  }

  function CloseStepsLeft(c: Closer): nat {
    match c
    case NotClosing => 6
    case PutSentinel => 5
    case Terminate => 4
    case DropReceiver => 3
    case Disconnect => 2
    case DropService => 1
  }

  // ---- leaving the loop at all ---------------------------------------------------------------------

  /** Whatever the other threads do and the SDK answers, n steps of the ingest thread leave the
      loop, cleanly or through the shutdown hook. */
  ghost predicate AlwaysLeaves(enabled: bool, s: System, n: nat) {
    forall events :: IngestSteps(events) >= n ==> Steps(enabled, s, events).ingest.Exited?
  }

  /** With the service gone: the way to the sentinel, or four steps for every failure left until
      the loop gives up. */
  function StepsToLeave(s: System): nat {
    var ahead := 2 * |BeforeSentinel(s.queue)|;
    var left := if s.log.failures >= MAX_FAILURES then 0 else MAX_FAILURES - s.log.failures;
    match s.ingest
    case Exited(_) => 0
    case Get => ahead + 1
    case Holding => ahead + 2
    case Failed => ahead + 4 * left + 1
    case BuildReceiver => ahead + 4 * left + 2
    case Subscribe => ahead + 4 * left + 2
    case Calling => ahead + 4 * left + 3
    case StartReceiver => ahead + 4 * left + 3
    case Sleeping => ahead + 4 * left + 4
    case KeepReceiver => ahead + 4 * left + 4
  }

  predicate ServiceGone(s: System) { !s.service && (None in s.queue || s.ingest.Exited?) }

  lemma LeavingIngest(s: System, succeeds: bool)
    requires ServiceGone(s)
    ensures var t := IngestNext(true, s, succeeds);
            ServiceGone(t) && (t.ingest.Exited? || StepsToLeave(t) + 1 <= StepsToLeave(s))
  {
    if s.ingest == Get { assert s.queue == [s.queue[0]] + s.queue[1..]; }
  }

  lemma LeavingStep(s: System, e: Event)
    requires ServiceGone(s)
    ensures var t := Next(true, s, e);
            && ServiceGone(t) && (s.ingest.Exited? ==> t.ingest.Exited?)
            && (t.ingest.Exited? || StepsToLeave(t) + (if e.IngestStep? then 1 else 0) <= StepsToLeave(s))
  {
    match e
    case IngestStep(succeeds) => LeavingIngest(s, succeeds);
    case OnMessage(d) => if !s.ingest.Exited? { PutAfterSentinel(s.queue, Some(d)); }
    case CloseStep => if !s.ingest.Exited? { PutAfterSentinel(s.queue, None); }
  }

  /** With automatic shutdown enabled the loop is left for sure once the service is gone. */
  lemma {:induction false} EnabledLoopLeaves(s: System, events: seq<Event>)
    requires ServiceGone(s)
    ensures var t := Steps(true, s, events);
            ServiceGone(t) && (t.ingest.Exited? || StepsToLeave(t) + IngestSteps(events) <= StepsToLeave(s))
    ensures IngestSteps(events) >= StepsToLeave(s) ==> Steps(true, s, events).ingest.Exited?
  {
    if events == [] {
    } else {
      var init := events[..|events| - 1];
      EnabledLoopLeaves(s, init);
      LeavingStep(Steps(true, s, init), events[|events| - 1]);
    }
  }

  lemma DisabledNeverShutsDown(events: seq<Event>)
    ensures var i := Steps(false, INITIAL, events).ingest; i.Exited? ==> i.exit == Closed
  {
    AlwaysInv(false, events);
  }

  /** With automatic shutdown disabled, failing SDK calls keep a loop that is not at the queue. */
  lemma FailingNeverLeaves(past: seq<Event>, n: nat)
    requires !AtQueue(Steps(false, INITIAL, past))
    ensures !AlwaysLeaves(false, Steps(false, INITIAL, past), n)
  {
    var s := Steps(false, INITIAL, past);
    TimesTally(IsIngestStep, IngestStep(false), n);
    FailingNeverArrives(false, s, Times(IngestStep(false), n));
    StepsAppend(NextOf(false), INITIAL, past, Times(IngestStep(false), n));
    DisabledNeverShutsDown(past + Times(IngestStep(false), n));
    assert !Steps(false, s, Times(IngestStep(false), n)).ingest.Exited?;
  }

  /** Once close() has cleared _service, the loop is bound to be left if and only if automatic
      shutdown is enabled or the exit is clean. */
  lemma LeavesExactly(enabled: bool, past: seq<Event>)
    requires !Steps(enabled, INITIAL, past).service
    ensures var s := Steps(enabled, INITIAL, past);
            enabled || AtQueue(s) <==> exists n: nat :: AlwaysLeaves(enabled, s, n)
  {
    var s := Steps(enabled, INITIAL, past);
    AlwaysInv(enabled, past);
    if enabled {
      forall events | IngestSteps(events) >= StepsToLeave(s) ensures Steps(enabled, s, events).ingest.Exited? {
        EnabledLoopLeaves(s, events);
      }
      assert AlwaysLeaves(enabled, s, StepsToLeave(s));
    } else if AtQueue(s) {
      CleanExitExactly(enabled, past);
      var n: nat :| AlwaysExits(enabled, s, n);
      assert AlwaysLeaves(enabled, s, n);
    } else {
      forall n: nat ensures !AlwaysLeaves(enabled, s, n) { FailingNeverLeaves(past, n); }
    }
  }

  /** The same at the call: when close() begins, every way it can go on to clear _service leaves
      a loop bound to be left if and only if automatic shutdown is enabled, or the generator is
      reading the queue or has returned. A loop that the shutdown hook has ended before close()
      begins has left already: automatic shutdown is enabled then, and nobody reads the
      sentinel or waits for it. */
  lemma CloseGuaranteesLeaving(enabled: bool, past: seq<Event>)
    requires var s := Steps(enabled, INITIAL, past); s.service && s.closer == NotClosing
    ensures var s := Steps(enabled, INITIAL, past);
            enabled || AtQueue(s) <==>
            forall events :: !Steps(enabled, s, events).service ==>
              exists n: nat :: AlwaysLeaves(enabled, Steps(enabled, s, events), n)
    ensures Steps(enabled, INITIAL, past).ingest == Exited(ShutdownRequested) ==> enabled
  {
    var s := Steps(enabled, INITIAL, past);
    if s.ingest == Exited(ShutdownRequested) && !enabled { DisabledNeverShutsDown(past); }
    if enabled || AtQueue(s) {
      forall events | !Steps(enabled, s, events).service
        ensures exists n: nat :: AlwaysLeaves(enabled, Steps(enabled, s, events), n)
      {
        if AtQueue(s) { AtQueueStays(enabled, s, events); }
        StepsAppend(NextOf(enabled), INITIAL, past, events);
        LeavesExactly(enabled, past + events);
      }
    } else {
      var events := CloseAlone(enabled, s);
      StepsAppend(NextOf(enabled), INITIAL, past, events);
      LeavesExactly(enabled, past + events);
    }
  }

  // ---- calls that come too late -------------------------------------------------------------------

  /** The generator reads the queue or has a receiver to go on with. */
  predicate Receiving(s: System) {
    s.ingest == Get || s.ingest == KeepReceiver || ((s.ingest == StartReceiver || s.ingest == Subscribe) && s.receiver)
  }

  /** A clean exit is still possible: the generator reads the queue, or holds a receiver to go
      on with. */
  predicate CanDrain(s: System) { AtQueue(s) || Receiving(s) }

  /** A call of batches() that has not built its receiver when _service has been cleared
      raises, and so does every later one: the loop can no longer exit cleanly. */
  lemma {:induction false} LateCallNeverDrains(enabled: bool, s: System, events: seq<Event>)
    requires !s.service && !CanDrain(s)
    ensures var t := Steps(enabled, s, events); !t.service && !CanDrain(t)
  {
    if events == [] {
    } else {
      LateCallNeverDrains(enabled, s, events[..|events| - 1]);
    }
  }

  /** With automatic shutdown disabled such a loop never exits at all. */
  lemma {:induction false} DisabledLoopNeverExits(s: System, events: seq<Event>)
    requires !s.service && !CanDrain(s) && !s.ingest.Exited?
    ensures var t := Steps(false, s, events);
            !t.service && !CanDrain(t) && !t.ingest.Exited?
  {
    if events == [] {
    } else {
      var init, e := events[..|events| - 1], events[|events| - 1];
      DisabledLoopNeverExits(s, init);
      DisabledStep(Steps(false, s, init), e);
    }
  }

  lemma DisabledStep(s: System, e: Event)
    requires !s.service && !CanDrain(s) && !s.ingest.Exited?
    ensures var t := Next(false, s, e); !t.service && !CanDrain(t) && !t.ingest.Exited?
  {
  }

  /** A consumer whose first receiver fails to start, up to the loop's first sleep. */
  predicate FirstStartFails(events: seq<Event>) {
    && |events| == 5
    && events[0] == events[1] == events[2] == events[4] == IngestStep(true)
    && events[3] == IngestStep(false)
  }

  lemma AfterFirstStartFails(up: seq<Event>)
    requires FirstStartFails(up)
    ensures var s := Steps(false, INITIAL, up);
            s.ingest == Sleeping && s.receiver && s.service && s.closer == NotClosing
  {
    var starting := Steps(false, INITIAL, up[..3]);
    AfterReceiverIsBuilt(up);
    PrefixStep(up, 3);
    var failed := Steps(false, INITIAL, up[..4]);
    assert failed == starting.(ingest := Failed, log := End(starting.log, Raised));
    PrefixStep(up, 4);
    assert up[..5] == up;
    assert Steps(false, INITIAL, up) == failed.(ingest := Sleeping, log := Count(failed.log));
  }

  lemma AfterReceiverIsBuilt(up: seq<Event>)
    requires FirstStartFails(up)
    ensures var s := Steps(false, INITIAL, up[..3]);
            s.ingest == StartReceiver && s.receiver && s.service && s.closer == NotClosing
  {
    PrefixStep(up, 0);
    assert up[..0] == [];
    assert Steps(false, INITIAL, up[..1]) == INITIAL.(ingest := BuildReceiver, log := Begin(NO_CALLS));
    PrefixStep(up, 1);
    assert Steps(false, INITIAL, up[..2]) == INITIAL.(ingest := KeepReceiver, log := Begin(NO_CALLS));
    PrefixStep(up, 2);
  }

  lemma PrefixStep(events: seq<Event>, n: nat)
    requires n < |events|
    ensures Steps(false, INITIAL, events[..n + 1]) == Next(false, Steps(false, INITIAL, events[..n]), events[n])
  {
    assert events[..n + 1] == events[..n] + [events[n]];
    StepsSnoc(NextOf(false), INITIAL, events[..n], events[n]);
  }

  /** close() and its failing input: the first receiver fails to start, and all six steps of
      close() run while the loop sleeps. The sentinel waits on the queue, no generator will ever
      read it, and with automatic shutdown disabled the loop never exits, whatever happens
      next. */
  lemma CloseDuringBackoffStrandsLoop(up: seq<Event>, closing: seq<Event>)
    requires FirstStartFails(up) && Only(CloseStep, closing) && |closing| == 6
    ensures var s := Steps(false, INITIAL, up + closing);
            && s.closer == NotClosing && !s.service && s.ingest == Sleeping && None in s.queue
            && forall events :: !Steps(false, s, events).ingest.Exited?
  {
    AfterFirstStartFails(up);
    var alone := CloseAlone(false, Steps(false, INITIAL, up));
    assert closing == alone;
    StepsAppend(NextOf(false), INITIAL, up, closing);
    var s := Steps(false, INITIAL, up + closing);
    AlwaysInv(false, up + closing);
    forall events ensures !Steps(false, s, events).ingest.Exited? {
      DisabledLoopNeverExits(s, events);
    }
  }

  function StepsToGet(i: Ingest): nat {
    match i case KeepReceiver => 3 case StartReceiver => 2 case Subscribe => 1 case _ => 0
  }

  /** The ingest thread left alone gets from its setup to the queue. */
  lemma {:induction false} ReachesGet(enabled: bool, s: System) returns (events: seq<Event>)
    requires Receiving(s)
    ensures var t := Steps(enabled, s, events); t.ingest == Get && t.queue == s.queue
    decreases StepsToGet(s.ingest)
  {
    events := [];
    if s.ingest != Get {
      var t := IngestNext(enabled, s, true);
      assert Receiving(t) && t.queue == s.queue && StepsToGet(t.ingest) < StepsToGet(s.ingest);
      var rest := ReachesGet(enabled, t);
      events := FirstThen(NextOf(enabled), s, IngestStep(true), rest);
    }
  }

  /** Once close() has cleared _service, some way to a clean exit is left if and only if the
      generator reads the queue or holds a receiver. */
  lemma CleanExitPossible(enabled: bool, past: seq<Event>)
    requires !Steps(enabled, INITIAL, past).service
    ensures var s := Steps(enabled, INITIAL, past);
            CanDrain(s) <==> exists events :: Steps(enabled, s, events).ingest == Exited(Closed)
  {
    var s := Steps(enabled, INITIAL, past);
    AlwaysInv(enabled, past);
    if CanDrain(s) {
      var events := DrainsAlone(enabled, s);
    } else {
      forall events ensures Steps(enabled, s, events).ingest != Exited(Closed) {
        LateCallNeverDrains(enabled, s, events);
      }
    }
  }

  lemma DrainsAlone(enabled: bool, s: System) returns (events: seq<Event>)
    requires CanDrain(s) && (None in s.queue || s.ingest == Exited(Closed))
    ensures Steps(enabled, s, events).ingest == Exited(Closed)
  {
    events := [];
    if s.ingest != Exited(Closed) {
      if !Draining(s) { events := ReachesGet(enabled, s); }
      var t := Steps(enabled, s, events);
      var n := StepsToSentinel(t);
      TimesTally(IsIngestStep, IngestStep(true), n);
      GeneratorDrains(enabled, t, Times(IngestStep(true), n));
      StepsAppend(NextOf(enabled), s, events, Times(IngestStep(true), n));
      events := events + Times(IngestStep(true), n);
    }
  }
}
