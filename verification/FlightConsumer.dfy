/** The Flight transport: batches() and the ingest loop against close(), step by step.

Models FlightBatchConsumer of ingestion/flight/client.py driven by the loop of
services/stream_ingest.py. The ingest thread runs the generator and the loop; another thread
runs close(), possibly more than once. Either may be interrupted between any two reads or
writes of a shared field. What the server does is chosen by the environment, except that a
stream that has been cancelled yields nothing more. */
module FlightConsumer {
  import opened Lists
  import opened IngestTrace
  import opened Machine
  import opened ConsumerLog
  import LsmStore
  import opened Watchdog

  /** What the environment answers at a step that asks it: a call succeeds or a chunk arrives,
      the call or the read fails, or the stream ends. */
  datatype Response = Succeeds(chunk: Delivery) | Fails | StreamEnds

  /** The next thing the ingest thread does; id names the stream a call has opened. */
  datatype Ingest =
    | Calling              // the loop calls batches(): the generator's body begins
    | CheckClosing         // line 36, first operand
    | CheckClient          // line 36, second operand
    | SetReconnecting      // line 38
    | DoGet                // line 40: reads _client again and asks the server for a stream
    | SetReader(id: nat)   // line 41
    | SetConnected(id: nat) // line 42
    | Iterating(id: nat)   // line 44: waits for a chunk
    | Holding(id: nat)     // a chunk has been yielded to the loop, which records it
    | ExceptCheck          // line 47
    | ExceptState          // line 49
    | FinallyReturn        // line 52 on the way to a return
    | FinallyRaise         // line 52 on the way to a raise
    | FinallyEnd           // line 52 after the stream ended
    | EndCheck             // line 53
    | EndState             // line 56
    | Failed               // the loop's except clause
    | Sleeping
    | Exited(exit: Exit)

  /** The next thing the closing thread does. */
  datatype Closer =
    | NotClosing
    | SetDown                         // line 61
    | TakeReader                      // line 67: reads _reader
    | DropReader(reader: Option<nat>) // line 67: clears it
    | Cancel(reader: Option<nat>)     // lines 68-70
    | TakeClient                      // line 73: reads _client
    | DropClient(client: bool)        // line 73: clears it
    | CloseClient(client: bool)       // lines 74-75

  datatype System = System(state: ConnectionState, closing: bool, client: bool, reader: Option<nat>,
                           cancelled: set<nat>, streams: nat, clientClosed: bool,
                           ingest: Ingest, closer: Closer, log: Log)

  /** After __aenter__: connected to the server, not yet streaming. */
  const INITIAL :=
    System(RECONNECTING, false, true, None, {}, 0, false, Calling, NotClosing, NO_CALLS)

  datatype Event = IngestStep(answer: Response) | CloseStep

  /** What a step of the ingest thread does to the log. */
  function MoveOf(s: System, answer: Response): Move {
    match s.ingest
    case Calling => Begins
    case CheckClosing => if s.closing then Ends(false) else Nothing
    case CheckClient => if !s.client then Ends(false) else Nothing
    case DoGet => if !s.client || !answer.Succeeds? then Ends(true) else Nothing
    case Iterating(id) => if id !in s.cancelled && answer.Succeeds? then Yields(answer.chunk) else Nothing
    case FinallyReturn => Ends(false)
    case FinallyRaise => Ends(true)
    case EndCheck => if s.closing then Ends(false) else Nothing
    case EndState => Ends(true)
    case Failed => Counts
    case _ => Nothing
  }

  /** Where a step of the ingest thread leads. */
  function PcAfter(enabled: bool, s: System, answer: Response): Ingest {
    match s.ingest
    case Calling => CheckClosing
    case CheckClosing => if s.closing then Exited(Closed) else CheckClient
    case CheckClient => if !s.client then Exited(Closed) else SetReconnecting
    case SetReconnecting => DoGet
    case DoGet => if !s.client || !answer.Succeeds? then Failed else SetReader(s.streams)
    case SetReader(id) => SetConnected(id)
    case SetConnected(id) => Iterating(id)
    case Iterating(id) =>
      if answer.StreamEnds? then FinallyEnd
      else if id !in s.cancelled && answer.Succeeds? then Holding(id)
      else ExceptCheck
    case Holding(id) => Iterating(id)
    case ExceptCheck => if s.closing then FinallyReturn else ExceptState
    case ExceptState => FinallyRaise
    case FinallyReturn => Exited(Closed)
    case FinallyRaise => Failed
    case FinallyEnd => EndCheck
    case EndCheck => if s.closing then Exited(Closed) else EndState
    case EndState => Failed
    case Failed => if GivesUp(enabled, Count(s.log)) then Exited(ShutdownRequested) else Sleeping
    case Sleeping => Calling
    case Exited(exit) => Exited(exit)
  }

  /** Lines 38, 42, 49 and 56. */
  function StateAfter(s: System): ConnectionState {
    match s.ingest
    case SetReconnecting => RECONNECTING
    case SetConnected(_) => CONNECTED
    case ExceptState => RECONNECTING
    case EndState => RECONNECTING
    case _ => s.state
  }

  /** Lines 41 and 52. */
  function ReaderAfter(s: System): Option<nat> {
    match s.ingest
    case SetReader(id) => Some(id)
    case FinallyReturn => None
    case FinallyRaise => None
    case FinallyEnd => None
    case _ => s.reader
  }

  function IngestNext(enabled: bool, s: System, answer: Response): System {
    var move := MoveOf(s, answer);
    s.(ingest := PcAfter(enabled, s, answer),
       log := Moved(s.log, move),
       state := StateAfter(s),
       reader := ReaderAfter(s),
       streams := if s.ingest == DoGet && s.client && answer.Succeeds? then s.streams + 1 else s.streams)
  }

  function CloseNext(s: System): System {
    match s.closer
    case NotClosing => s.(closing := true, closer := SetDown)
    case SetDown => s.(state := DOWN, closer := TakeReader)
    case TakeReader => s.(closer := DropReader(s.reader))
    case DropReader(r) => s.(reader := None, closer := Cancel(r))
    case Cancel(r) => s.(cancelled := if r.Some? then s.cancelled + {r.value} else s.cancelled, closer := TakeClient)
    case TakeClient => s.(closer := DropClient(s.client))
    case DropClient(c) => s.(client := false, closer := CloseClient(c))
    case CloseClient(c) => s.(clientClosed := s.clientClosed || c, closer := NotClosing)
  }

  function Next(enabled: bool, s: System, e: Event): System {
    match e case IngestStep(answer) => IngestNext(enabled, s, answer) case CloseStep => CloseNext(s)
  }

  function NextOf(enabled: bool): (System, Event) -> System { (s, e) => Next(enabled, s, e) }

  function Steps(enabled: bool, s: System, events: seq<Event>): System {
    Machine.Steps(NextOf(enabled), s, events)
  }

  predicate IsIngestStep(e: Event) { e.IngestStep? }

  function IngestSteps(events: seq<Event>): nat { Tally(IsIngestStep, events) }

  // ---- safety ------------------------------------------------------------------------------

  function PhaseOf(i: Ingest): Phase {
    match i
    case Calling => Between
    case Sleeping => Between
    case Failed => Raising
    case Exited(exit) => Left(exit)
    case _ => Running
  }

  ghost predicate ClosingInv(s: System) {
    && (!s.closing ==> s.closer == NotClosing && s.client)
    && (s.ingest == FinallyReturn || s.ingest == Exited(Closed) ==> s.closing)
  }

  /** The client is closed before close() finishes, however often close() runs. */
  ghost predicate ClientInv(s: System) {
    && (s.closer == DropClient(false) || s.closer == CloseClient(false) ==> s.clientClosed)
    && (s.client || s.clientClosed || s.closer == CloseClient(true))
    && (s.closer.CloseClient? ==> !s.client)
    && (s.closing && s.closer == NotClosing ==> !s.client && s.clientClosed)
  }

  /** The stream the ingest thread has opened and not yet left. */
  function InFlight(s: System): Option<nat> {
    match s.ingest
    case SetReader(id) => Some(id)
    case SetConnected(id) => Some(id)
    case Iterating(id) => Some(id)
    case Holding(id) => Some(id)
    case _ => None
  }

  /** The first close() has not reached its read of _reader. */
  predicate ReaderUntouched(s: System) {
    s.client && (s.closer == NotClosing || s.closer == SetDown || s.closer == TakeReader)
  }

  /** Until close() reads _reader nothing is cancelled, _reader is unset while a call opens its
      stream, and set to that stream from line 41 on. */
  ghost predicate ReaderInv(s: System) {
    ReaderUntouched(s) ==>
      && s.cancelled == {}
      && (InFlight(s).Some? && !s.ingest.SetReader? ==> s.reader == InFlight(s))
      && (BeforeReader(s.ingest) ==> s.reader == None)
  }

  /** No stream of the ingest thread's is stored in _reader. */
  predicate BeforeReader(i: Ingest) {
    match i
    case SetConnected(_) => false
    case Iterating(_) => false
    case Holding(_) => false
    case ExceptCheck => false
    case ExceptState => false
    case FinallyReturn => false
    case FinallyRaise => false
    case FinallyEnd => false
    case _ => true
  }

  /** A call that has passed its check of _closing and not yet stored its reader. */
  predicate Opening(s: System) {
    s.ingest == CheckClient || s.ingest == SetReconnecting || s.ingest == DoGet || s.ingest.SetReader?
  }

  ghost predicate Inv(enabled: bool, s: System) {
    LogInv(enabled, s.log, PhaseOf(s.ingest)) && ClosingInv(s) && ClientInv(s) && ReaderInv(s)
  }

  lemma MoveAllowed(s: System, answer: Response)
    ensures Allowed(PhaseOf(s.ingest), MoveOf(s, answer))
  {
  }

  lemma MoveFits(enabled: bool, s: System, answer: Response)
    ensures PhaseOf(PcAfter(enabled, s, answer)) == PhaseAfter(enabled, s.log, PhaseOf(s.ingest), MoveOf(s, answer))
  {
  }

  lemma IngestKeepsLog(enabled: bool, s: System, answer: Response)
    requires LogInv(enabled, s.log, PhaseOf(s.ingest))
    ensures var t, m := IngestNext(enabled, s, answer), MoveOf(s, answer);
            && LogInv(enabled, t.log, PhaseOf(t.ingest))
            && t.log.yielded == if m.Yields? then s.log.yielded + [m.d] else s.log.yielded
  {
    MoveAllowed(s, answer);
    MoveFits(enabled, s, answer);
    MoveKeepsInv(enabled, s.log, PhaseOf(s.ingest), MoveOf(s, answer));
  }

  lemma IngestKeepsClosing(enabled: bool, s: System, answer: Response)
    requires ClosingInv(s) && ClientInv(s)
    ensures ClosingInv(IngestNext(enabled, s, answer)) && ClientInv(IngestNext(enabled, s, answer))
  {
  }

  lemma IngestKeepsReader(enabled: bool, s: System, answer: Response)
    requires ReaderInv(s)
    ensures ReaderInv(IngestNext(enabled, s, answer))
  {
  }

  lemma CloseKeepsInv(enabled: bool, s: System)
    requires Inv(enabled, s)
    ensures Inv(enabled, CloseNext(s))
  {
    assert CloseNext(s).log == s.log && CloseNext(s).ingest == s.ingest;
  }

  lemma NextKeepsInv(enabled: bool, s: System, e: Event)
    requires Inv(enabled, s)
    ensures Inv(enabled, Next(enabled, s, e))
  {
    if e.CloseStep? {
      CloseKeepsInv(enabled, s);
    } else {
      IngestKeepsLog(enabled, s, e.answer);
      IngestKeepsClosing(enabled, s, e.answer);
      IngestKeepsReader(enabled, s, e.answer);
    }
  }

  lemma {:induction false} AlwaysInv(enabled: bool, events: seq<Event>)
    ensures Inv(enabled, Steps(enabled, INITIAL, events))
  {
    if events == [] {
    } else {
      var init := events[..|events| - 1];
      AlwaysInv(enabled, init);
      NextKeepsInv(enabled, Steps(enabled, INITIAL, init), events[|events| - 1]);
    }
  }

  /** A call of batches() that begins once _closing is set, in any interleaving, yields nothing
      and returns in its next step, and no further call begins: there is at most one. */
  lemma {:induction false} AtMostOneLateCall(enabled: bool, past: seq<Event>, answer: Response, later: seq<Event>)
    requires var s := Steps(enabled, INITIAL, past); s.closing && s.ingest == Calling
    ensures var s, t := Steps(enabled, INITIAL, past), Steps(enabled, INITIAL, past + [IngestStep(answer)] + later);
            && t.closing && t.log.yielded == s.log.yielded
            && t.ingest == (if IngestSteps(later) == 0 then CheckClosing else Exited(Closed))
            && t.log.calls == s.log.calls + [Call([], if IngestSteps(later) == 0 then Ending.InFlight else Returned)]
  {
    var begun := past + [IngestStep(answer)];
    StepsSnoc(NextOf(enabled), INITIAL, past, IngestStep(answer));
    if later == [] {
      assert begun + later == begun;
    } else {
      var init, e := later[..|later| - 1], later[|later| - 1];
      AtMostOneLateCall(enabled, past, answer, init);
      assert begun + later == begun + init + [e];
      StepsSnoc(NextOf(enabled), INITIAL, begun + init, e);
      TallySnoc(IsIngestStep, init, e);
      assert later == init + [e];
      LateCallStep(enabled, Steps(enabled, INITIAL, begun + init), e);
    }
  }

  lemma LateCallStep(enabled: bool, s: System, e: Event)
    requires s.closing && s.log.calls != [] && (s.ingest == CheckClosing || s.ingest == Exited(Closed))
    ensures var t, n := Next(enabled, s, e), |s.log.calls| - 1;
            && t.closing && t.log.yielded == s.log.yielded
            && (if s.ingest == CheckClosing && e.IngestStep?
                then t.ingest == Exited(Closed) &&
                     t.log.calls == s.log.calls[..n] + [s.log.calls[n].(ending := Returned)]
                else t.ingest == s.ingest && t.log.calls == s.log.calls)
  {
  }

  /** The loop returns as if the consumer had been closed only if it has been; and when a
      close() has finished the client is gone and closed. */
  lemma ExitMeansClosed(enabled: bool, events: seq<Event>)
    ensures var s := Steps(enabled, INITIAL, events);
            && (s.ingest == Exited(Closed) ==> s.closing)
            && (s.closing && s.closer == NotClosing ==> !s.client && s.clientClosed)
  {
    AlwaysInv(enabled, events);
  }

  // ---- what is yielded -----------------------------------------------------------------------

  /** The chunks that arrive while the ingest thread waits on a stream nobody has cancelled, in
      the order they arrive. */
  function Received(enabled: bool, events: seq<Event>): seq<Delivery> {
    if events == [] then []
    else
      var init, e := events[..|events| - 1], events[|events| - 1];
      var s := Steps(enabled, INITIAL, init);
      Received(enabled, init) +
      if e.IngestStep? && e.answer.Succeeds? && s.ingest.Iterating? && s.ingest.id !in s.cancelled
      then [e.answer.chunk] else []
  }

  lemma StepYields(enabled: bool, s: System, e: Event)
    requires LogInv(enabled, s.log, PhaseOf(s.ingest))
    ensures Next(enabled, s, e).log.yielded ==
            s.log.yielded +
            if e.IngestStep? && e.answer.Succeeds? && s.ingest.Iterating? && s.ingest.id !in s.cancelled
            then [e.answer.chunk] else []
  {
    if e.IngestStep? { IngestKeepsLog(enabled, s, e.answer); } else { assert CloseNext(s).log == s.log; }
  }

  /** In every run exactly those chunks are yielded, each once, unchanged and in order. */
  lemma {:induction false} YieldedIsReceived(enabled: bool, events: seq<Event>)
    ensures Steps(enabled, INITIAL, events).log.yielded == Received(enabled, events)
  {
    if events == [] {
    } else {
      var init := events[..|events| - 1];
      YieldedIsReceived(enabled, init);
      AlwaysInv(enabled, init);
      StepYields(enabled, Steps(enabled, INITIAL, init), events[|events| - 1]);
    }
  }

  // ---- the state reported ------------------------------------------------------------------------

  /** From line 42 until the end or the failure of the stream has been handled. */
  predicate Streaming(i: Ingest) {
    || i.Iterating? || i.Holding?
    || i == ExceptCheck || i == ExceptState || i == FinallyEnd || i == EndCheck || i == EndState
  }

  lemma StateStep(enabled: bool, s: System, e: Event)
    requires !s.closing ==> s.closer == NotClosing && s.ingest != FinallyReturn
    requires !s.closing ==> s.state == if Streaming(s.ingest) then CONNECTED else RECONNECTING
    ensures var t := Next(enabled, s, e);
            !t.closing ==> t.state == if Streaming(t.ingest) then CONNECTED else RECONNECTING
  {
  }

  /** While no close() has begun, the consumer reports CONNECTED exactly while it is streaming,
      and RECONNECTING otherwise. */
  lemma {:induction false} StateReported(enabled: bool, events: seq<Event>)
    ensures var s := Steps(enabled, INITIAL, events);
            !s.closing ==> s.state == if Streaming(s.ingest) then CONNECTED else RECONNECTING
  {
    if events == [] {
    } else {
      var init := events[..|events| - 1];
      StateReported(enabled, init);
      AlwaysInv(enabled, init);
      StateStep(enabled, Steps(enabled, INITIAL, init), events[|events| - 1]);
    }
  }

  // ---- streams -------------------------------------------------------------------------------

  predicate Below(id: Option<nat>, n: nat) { id.Some? ==> id.value < n }

  /** The reader close() has taken and not yet cancelled. */
  function InClose(c: Closer): Option<nat> {
    match c case DropReader(r) => r case Cancel(r) => r case _ => None
  }

  /** Every stream known to anybody has been opened. */
  ghost predicate IdsInv(s: System) {
    && Below(InFlight(s), s.streams) && Below(s.reader, s.streams) && Below(InClose(s.closer), s.streams)
    && forall id :: id in s.cancelled ==> id < s.streams
  }

  lemma IdsStep(enabled: bool, s: System, e: Event)
    requires IdsInv(s)
    ensures IdsInv(Next(enabled, s, e))
  {
    if e.IngestStep? { IdsIngest(enabled, s, e.answer); } else { IdsClose(s); }
  }

  lemma IdsIngest(enabled: bool, s: System, answer: Response)
    requires IdsInv(s)
    ensures IdsInv(IngestNext(enabled, s, answer))
  {
    var t := IngestNext(enabled, s, answer);
    assert t.closer == s.closer && t.cancelled == s.cancelled && t.streams >= s.streams;
  }

  lemma IdsClose(s: System)
    requires IdsInv(s)
    ensures IdsInv(CloseNext(s))
  {
    var t := CloseNext(s);
    assert t.streams == s.streams && InFlight(t) == InFlight(s);
    assert t.reader == s.reader || t.reader == None;
    assert InClose(t.closer) == InClose(s.closer) || InClose(t.closer) == s.reader || InClose(t.closer) == None;
    assert t.cancelled == s.cancelled || t.cancelled == s.cancelled + {InClose(s.closer).value};
  }

  lemma {:induction false} IdsAlways(enabled: bool, events: seq<Event>)
    ensures IdsInv(Steps(enabled, INITIAL, events))
  {
    if events == [] {
    } else {
      IdsAlways(enabled, events[..|events| - 1]);
      IdsStep(enabled, Steps(enabled, INITIAL, events[..|events| - 1]), events[|events| - 1]);
    }
  }

  /** Every stream the server opens is a new one: nobody holds it and nobody has cancelled it. */
  lemma StreamsAreNew(enabled: bool, events: seq<Event>, answer: Response)
    requires Steps(enabled, INITIAL, events).ingest == DoGet
    ensures var s, t := Steps(enabled, INITIAL, events), Steps(enabled, INITIAL, events + [IngestStep(answer)]);
            InFlight(t) == (if s.client && answer.Succeeds? then Some(s.streams) else None) &&
            (InFlight(t).Some? ==>
               && InFlight(t).value !in t.cancelled && t.reader != InFlight(t)
               && t.closer != DropReader(InFlight(t)) && t.closer != Cancel(InFlight(t))
               && InFlight(t).value < t.streams)
  {
    IdsAlways(enabled, events);
    StepsSnoc(NextOf(enabled), INITIAL, events, IngestStep(answer));
  }

  /** A call that finds the client gone returns at once (lines 36-37). */
  lemma CallWithoutClient(enabled: bool, s: System, answer: Response)
    requires s.ingest == CheckClient && !s.client
    ensures IngestNext(enabled, s, answer) == s.(ingest := Exited(Closed), log := End(s.log, Returned))
  {
  }

  /** A call that finds the client there reports that it reconnects and asks for a stream; if it
      gets none it raises, else it stores the stream, reports that it is connected, and reads. */
  lemma CallOpens(enabled: bool, s: System, answer: Response)
    requires s.ingest == CheckClient && s.client
    ensures var asking := IngestNext(enabled, IngestNext(enabled, s, Fails), Fails);
            var asked := IngestNext(enabled, asking, answer);
            && asking == s.(ingest := DoGet, state := RECONNECTING)
            && (if answer.Succeeds?
                then IngestNext(enabled, IngestNext(enabled, asked, Fails), Fails) ==
                     s.(ingest := Iterating(s.streams), state := CONNECTED, reader := Some(s.streams),
                        streams := s.streams + 1)
                else asked == asking.(ingest := Failed, log := End(s.log, Raised)))
  {
    var asking := IngestNext(enabled, IngestNext(enabled, s, Fails), Fails);
    assert asking == s.(ingest := DoGet, state := RECONNECTING);
  }

  /** A stream that ends is dropped before _closing is looked at (lines 52-57); the call then
      returns, or reports the loss of the connection and raises. */
  lemma StreamEndHandled(enabled: bool, s: System, a: Response, b: Response, c: Response)
    requires s.ingest.Iterating?
    ensures var dropped := IngestNext(enabled, IngestNext(enabled, s, StreamEnds), a);
            var checked := IngestNext(enabled, dropped, b);
            && dropped.reader == None && dropped.state == s.state && dropped.log == s.log
            && (if s.closing then checked == dropped.(ingest := Exited(Closed), log := End(s.log, Returned))
                else IngestNext(enabled, checked, c) ==
                     dropped.(ingest := Failed, state := RECONNECTING, log := End(s.log, Raised)))
  {
  }

  /** A stream that breaks is kept while _closing is looked at (lines 46-52); the call then drops
      it and returns, or reports the loss of the connection, drops it and raises. */
  lemma StreamBreakHandled(enabled: bool, s: System, broken: Response, a: Response, b: Response, c: Response)
    requires s.ingest.Iterating? && (broken.Fails? || (broken.Succeeds? && s.ingest.id in s.cancelled))
    ensures var checked := IngestNext(enabled, IngestNext(enabled, s, broken), a);
            var third := IngestNext(enabled, checked, b);
            && checked.reader == s.reader && checked.state == s.state && checked.log == s.log
            && (if s.closing then third == s.(ingest := Exited(Closed), reader := None, log := End(s.log, Returned))
                else third.reader == s.reader && third.state == RECONNECTING &&
                     IngestNext(enabled, third, c) ==
                     s.(ingest := Failed, reader := None, state := RECONNECTING, log := End(s.log, Raised)))
  {
  }

  // ---- the loop returns ----------------------------------------------------------------------

  /** The most steps the ingest thread takes to leave the loop while _closing is set and no
      further chunk arrives. */
  function StepsToReturn(i: Ingest): nat {
    match i
    case CheckClient => 8
    case SetReconnecting => 7
    case DoGet => 6
    case SetReader(_) => 5
    case SetConnected(_) => 4
    case Holding(_) => 4
    case Iterating(_) => 3
    case ExceptState => 6
    case FinallyRaise => 5
    case EndState => 5
    case Failed => 4
    case Sleeping => 3
    case Calling => 2
    case FinallyEnd => 2
    case ExceptCheck => 2
    case FinallyReturn => 1
    case EndCheck => 1
    case CheckClosing => 1
    case Exited(_) => 0
  }

  lemma CloserToReturn(enabled: bool, s: System, answer: Response)
    requires s.closing && !s.ingest.Exited?
    ensures StepsToReturn(PcAfter(enabled, s, answer)) + 1
            <= StepsToReturn(s.ingest) + if MoveOf(s, answer).Yields? then 2 else 0
  {
  }

  lemma ClosingStep(enabled: bool, s: System, e: Event)
    requires s.closing && LogInv(enabled, s.log, PhaseOf(s.ingest))
    ensures var t := Next(enabled, s, e);
            && t.closing && LogInv(enabled, t.log, PhaseOf(t.ingest)) && |t.log.yielded| >= |s.log.yielded|
            && (s.ingest.Exited? ==> t.ingest == s.ingest)
            && (StepsToReturn(t.ingest) + (if e.IngestStep? then 1 else 0)
                <= StepsToReturn(s.ingest) + 2 * (|t.log.yielded| - |s.log.yielded|) || s.ingest.Exited?)
  {
    if e.IngestStep? {
      IngestKeepsLog(enabled, s, e.answer);
      if s.ingest.Exited? {
        assert MoveOf(s, e.answer) == Nothing;
      } else {
        CloserToReturn(enabled, s, e.answer);
      }
    }
  }

  /** Once _closing is set, from wherever the ingest thread is, the loop returns within eight
      steps of its thread and two more for every chunk that still arrives, whatever the closing
      thread does meanwhile. */
  lemma {:induction false} LoopReturnsAfterClose(enabled: bool, s: System, events: seq<Event>)
    requires s.closing && LogInv(enabled, s.log, PhaseOf(s.ingest))
    ensures var t := Steps(enabled, s, events);
            && t.closing && LogInv(enabled, t.log, PhaseOf(t.ingest)) && |t.log.yielded| >= |s.log.yielded|
            && (StepsToReturn(t.ingest) + IngestSteps(events)
                <= StepsToReturn(s.ingest) + 2 * (|t.log.yielded| - |s.log.yielded|) || t.ingest.Exited?)
    ensures var t := Steps(enabled, s, events);
            IngestSteps(events) >= 8 + 2 * (|t.log.yielded| - |s.log.yielded|) ==> t.ingest.Exited?
  {
    if events == [] {
    } else {
      var init, e := events[..|events| - 1], events[|events| - 1];
      LoopReturnsAfterClose(enabled, s, init);
      ClosingStep(enabled, Steps(enabled, s, init), e);
    }
  }

  function EndingRank(s: System): nat {
    match s.ingest
    case ExceptCheck => 2 case FinallyEnd => 2 case FinallyReturn => 1 case EndCheck => 1 case _ => 0
  }

  /** A call whose stream breaks or ends while _closing is set returns cleanly within two steps
      of its thread; the exception is not raised into the loop. */
  lemma {:induction false} InFlightCallReturns(enabled: bool, s: System, events: seq<Event>)
    requires s.closing && (s.ingest == ExceptCheck || s.ingest == FinallyEnd)
    ensures var t := Steps(enabled, s, events);
            && t.closing && (EndingRank(t) > 0 || t.ingest == Exited(Closed))
            && (EndingRank(t) + IngestSteps(events) <= 2 || t.ingest == Exited(Closed))
    ensures IngestSteps(events) >= 2 ==> Steps(enabled, s, events).ingest == Exited(Closed)
  {
    if events == [] {
    } else {
      InFlightCallReturns(enabled, s, events[..|events| - 1]);
      EndingStep(enabled, Steps(enabled, s, events[..|events| - 1]), events[|events| - 1]);
    }
  }

  lemma EndingStep(enabled: bool, s: System, e: Event)
    requires s.closing && (EndingRank(s) > 0 || s.ingest == Exited(Closed))
    ensures var t := Next(enabled, s, e);
            && t.closing && (EndingRank(t) > 0 || t.ingest == Exited(Closed))
            && (EndingRank(t) + (if e.IngestStep? then 1 else 0) <= EndingRank(s) || t.ingest == Exited(Closed))
  {
  }

  // ---- whether close() cancels the stream in flight ----------------------------------------------

  predicate IsCloseStep(e: Event) { e.CloseStep? }

  function CloseSteps(events: seq<Event>): nat { Tally(IsCloseStep, events) }

  /** The rest of a close() that has read r from _reader, after n of its steps. */
  ghost predicate Cancelling(s: System, before: set<nat>, r: Option<nat>, n: nat) {
    var all := if r.Some? then before + {r.value} else before;
    if n == 0 then s.closer == DropReader(r) && s.cancelled == before
    else if n == 1 then s.closer == Cancel(r) && s.cancelled == before
    else
      && s.cancelled == all
      && (n == 2 ==> s.closer == TakeClient)
      && (n == 3 ==> s.closer.DropClient?)
      && (n == 4 ==> s.closer.CloseClient?)
      && (n == 5 ==> s.closer == NotClosing)
  }

  lemma {:induction false} CancelGoesOn(enabled: bool, s: System, before: set<nat>, r: Option<nat>, events: seq<Event>)
    requires Cancelling(s, before, r, 0) && CloseSteps(events) <= 5
    ensures Cancelling(Steps(enabled, s, events), before, r, CloseSteps(events))
  {
    if events == [] {
    } else {
      var init := events[..|events| - 1];
      CancelGoesOn(enabled, s, before, r, init);
      CancelStep(enabled, Steps(enabled, s, init), before, r, CloseSteps(init), events[|events| - 1]);
    }
  }

  lemma CancelStep(enabled: bool, s: System, before: set<nat>, r: Option<nat>, n: nat, e: Event)
    requires Cancelling(s, before, r, n) && n <= 5 && (e.CloseStep? ==> n < 5)
    ensures Cancelling(Next(enabled, s, e), before, r, if e.CloseStep? then n + 1 else n)
  {
    if e.IngestStep? {
      assert Next(enabled, s, e).closer == s.closer && Next(enabled, s, e).cancelled == s.cancelled;
    }
  }

  /** A stream is cancelled by the end of a close() if and only if it was before or _reader held
      it when line 67 read it, whatever the ingest thread does from then on. */
  lemma CancelledExactly(enabled: bool, s: System, events: seq<Event>, id: nat)
    requires s.closer == TakeReader && CloseSteps(events) == 5
    ensures var t := Steps(enabled, CloseNext(s), events);
            t.closer == NotClosing && (id in t.cancelled <==> id in s.cancelled || s.reader == Some(id))
  {
    CancelGoesOn(enabled, CloseNext(s), s.cancelled, s.reader, events);
  }

  // ---- what close() guarantees ---------------------------------------------------------------------

  /** n steps of the ingest thread leave the loop, whatever happens. */
  ghost predicate AlwaysExits(enabled: bool, s: System, n: nat) {
    forall events :: IngestSteps(events) >= n ==> Steps(enabled, s, events).ingest.Exited?
  }

  /** No stream can be opened and the one in flight, if any, has been cancelled. */
  predicate Quiet(s: System) {
    s.closing && !s.client && (InFlight(s).Some? ==> InFlight(s).value in s.cancelled)
  }

  lemma QuietStep(enabled: bool, s: System, e: Event)
    requires Quiet(s)
    ensures Quiet(Next(enabled, s, e)) && Next(enabled, s, e).log.yielded == s.log.yielded
  {
  }

  lemma {:induction false} QuietStays(enabled: bool, s: System, events: seq<Event>)
    requires Quiet(s)
    ensures Quiet(Steps(enabled, s, events)) && Steps(enabled, s, events).log.yielded == s.log.yielded
  {
    if events == [] {
    } else {
      QuietStays(enabled, s, events[..|events| - 1]);
      QuietStep(enabled, Steps(enabled, s, events[..|events| - 1]), events[|events| - 1]);
    }
  }

  /** A chunk whose content does not matter. */
  const CHUNK := Delivery(LsmStore.Malformed(0), 0)

  /** The server keeps sending. */
  const SENDS := IngestStep(Succeeds(CHUNK))

  lemma StreamGoesOn(enabled: bool, s: System)
    requires InFlight(s).Some? && InFlight(s).value !in s.cancelled
    ensures var t := IngestNext(enabled, s, Succeeds(CHUNK)); InFlight(t) == InFlight(s) && t.cancelled == s.cancelled
  {
  }

  lemma {:induction false} StreamsForever(enabled: bool, s: System, n: nat)
    requires InFlight(s).Some? && InFlight(s).value !in s.cancelled
    ensures var t := Steps(enabled, s, Times(SENDS, n)); InFlight(t) == InFlight(s) && t.cancelled == s.cancelled
  {
    if n == 0 {
    } else {
      StreamsForever(enabled, s, n - 1);
      StreamGoesOn(enabled, Steps(enabled, s, Times(SENDS, n - 1)));
      StepsSnoc(NextOf(enabled), s, Times(SENDS, n - 1), SENDS);
    }
  }

  /** After a close() has finished, the loop is bound to return if and only if no stream is in
      flight that close() did not cancel: such a stream goes on as long as its server sends. */
  lemma ExitExactly(enabled: bool, past: seq<Event>)
    requires var s := Steps(enabled, INITIAL, past); s.closing && s.closer == NotClosing
    ensures var s := Steps(enabled, INITIAL, past);
            (InFlight(s).Some? ==> InFlight(s).value in s.cancelled) <==> exists n: nat :: AlwaysExits(enabled, s, n)
  {
    var s := Steps(enabled, INITIAL, past);
    AlwaysInv(enabled, past);
    if InFlight(s).Some? && InFlight(s).value !in s.cancelled {
      forall n: nat ensures !AlwaysExits(enabled, s, n) {
        TimesTally(IsIngestStep, SENDS, n);
        StreamsForever(enabled, s, n);
      }
    } else {
      forall events | IngestSteps(events) >= 8 ensures Steps(enabled, s, events).ingest.Exited? {
        QuietStays(enabled, s, events);
        LoopReturnsAfterClose(enabled, s, events);
      }
      assert AlwaysExits(enabled, s, 8);
    }
  }

  /** The stream in flight, if any, is cancelled, or the close() in progress is about to cancel
      it; and no further one can be opened. */
  ghost predicate WillCancel(s: System) {
    && s.closing && !Opening(s)
    && (InFlight(s).Some? ==>
          || InFlight(s).value in s.cancelled
          || (s.reader == InFlight(s) && (s.closer == SetDown || s.closer == TakeReader))
          || s.closer == DropReader(InFlight(s)) || s.closer == Cancel(InFlight(s)))
  }

  /** While _closing is set the ingest thread opens no stream and stays on the one it has. */
  lemma NoNewStream(enabled: bool, s: System, answer: Response)
    requires s.closing && !Opening(s)
    ensures var t := IngestNext(enabled, s, answer);
            && t.closing && !Opening(t) && t.closer == s.closer && t.cancelled == s.cancelled
            && (InFlight(t) == None || (InFlight(t) == InFlight(s) && t.reader == s.reader))
  {
  }

  lemma WillCancelStep(enabled: bool, s: System, e: Event)
    requires WillCancel(s)
    ensures WillCancel(Next(enabled, s, e))
  {
    if e.IngestStep? { WillCancelIngest(enabled, s, e.answer); } else { WillCancelClose(s); }
  }

  lemma WillCancelIngest(enabled: bool, s: System, answer: Response)
    requires WillCancel(s)
    ensures WillCancel(IngestNext(enabled, s, answer))
  {
    NoNewStream(enabled, s, answer);
    assert WillCancel(IngestNext(enabled, s, answer));
  }

  lemma WillCancelClose(s: System)
    requires WillCancel(s)
    ensures WillCancel(CloseNext(s))
  {
    assert CloseNext(s).ingest == s.ingest;
  }

  lemma {:induction false} WillCancelStays(enabled: bool, s: System, events: seq<Event>)
    requires WillCancel(s)
    ensures WillCancel(Steps(enabled, s, events))
  {
    if events == [] {
    } else {
      WillCancelStays(enabled, s, events[..|events| - 1]);
      WillCancelStep(enabled, Steps(enabled, s, events[..|events| - 1]), events[|events| - 1]);
    }
  }

  /** The condition at the call: when the first close() sets _closing, every way it can finish
      leaves a loop bound to return if and only if no call of batches() is then past its check
      of _closing without having stored its reader. */
  lemma CloseGuaranteesExit(enabled: bool, past: seq<Event>)
    requires var s := Steps(enabled, INITIAL, past); s.closer == SetDown && s.client
    ensures var s := Steps(enabled, INITIAL, past);
            !Opening(s) <==>
            forall events :: Steps(enabled, s, events).closer == NotClosing ==>
              exists n: nat :: AlwaysExits(enabled, Steps(enabled, s, events), n)
  {
    var s := Steps(enabled, INITIAL, past);
    AlwaysInv(enabled, past);
    if !Opening(s) {
      forall events | Steps(enabled, s, events).closer == NotClosing
        ensures exists n: nat :: AlwaysExits(enabled, Steps(enabled, s, events), n)
      {
        ExitAfterCancel(enabled, past, events);
      }
    } else {
      var events := RaceClose(enabled, s);
      NoExitAfterRace(enabled, past, events);
    }
  }

  lemma ExitAfterCancel(enabled: bool, past: seq<Event>, events: seq<Event>)
    requires var s := Steps(enabled, INITIAL, past);
             WillCancel(s) && Steps(enabled, s, events).closer == NotClosing
    ensures exists n: nat :: AlwaysExits(enabled, Steps(enabled, Steps(enabled, INITIAL, past), events), n)
  {
    WillCancelStays(enabled, Steps(enabled, INITIAL, past), events);
    StepsAppend(NextOf(enabled), INITIAL, past, events);
    ExitExactly(enabled, past + events);
  }

  lemma NoExitAfterRace(enabled: bool, past: seq<Event>, events: seq<Event>)
    requires var t := Steps(enabled, Steps(enabled, INITIAL, past), events);
             t.closing && t.closer == NotClosing && InFlight(t).Some? && t.cancelled == {}
    ensures forall n: nat :: !AlwaysExits(enabled, Steps(enabled, Steps(enabled, INITIAL, past), events), n)
  {
    StepsAppend(NextOf(enabled), INITIAL, past, events);
    ExitExactly(enabled, past + events);
  }

  // ---- the race ----------------------------------------------------------------------------------------

  function CloseStepsLeft(c: Closer): nat {
    match c
    case NotClosing => 0
    case SetDown => 7
    case TakeReader => 6
    case DropReader(_) => 5
    case Cancel(_) => 4
    case TakeClient => 3
    case DropClient(_) => 2
    case CloseClient(_) => 1
  }

  lemma CloseStepCounts(s: System)
    requires s.closer != NotClosing
    ensures CloseStepsLeft(CloseNext(s).closer) == CloseStepsLeft(s.closer) - 1
  {
  }

  /** The close() in progress left to run to its end. */
  function Finished(s: System): System
    decreases CloseStepsLeft(s.closer)
  {
    if s.closer == NotClosing then s else (CloseStepCounts(s); Finished(CloseNext(s)))
  }

  lemma {:induction false} FinishClose(enabled: bool, s: System) returns (events: seq<Event>)
    ensures Steps(enabled, s, events) == Finished(s)
    ensures Only(CloseStep, events) && |events| == CloseStepsLeft(s.closer)
    decreases CloseStepsLeft(s.closer)
  {
    events := [];
    if s.closer != NotClosing {
      CloseStepCounts(s);
      var rest := FinishClose(enabled, CloseNext(s));
      events := FirstThen(NextOf(enabled), s, CloseStep, rest);
    }
  }

  /** From its read of an unset _reader on, close() cancels nothing. */
  lemma FinishedWithoutReader(s: System)
    requires s.closer == DropReader(None)
    ensures Finished(s) ==
            s.(reader := None, client := false, clientClosed := s.clientClosed || s.client, closer := NotClosing)
  {
    var dropped := CloseNext(CloseNext(s));
    assert dropped == s.(reader := None, closer := TakeClient);
    assert Finished(s) == Finished(CloseNext(s)) == Finished(dropped);
    var gone := CloseNext(CloseNext(dropped));
    assert gone == dropped.(client := false, closer := CloseClient(s.client));
    assert Finished(dropped) == Finished(CloseNext(dropped)) == Finished(gone);
    assert Finished(gone) == CloseNext(gone);
  }

  /** A call past its check of _closing opens its stream while the client is there. */
  lemma {:induction false} OpensStream(enabled: bool, s: System) returns (events: seq<Event>)
    requires Opening(s) && s.client
    ensures Only(SENDS, events) && |events| == StepsToReturn(s.ingest) - 5
    ensures var t := Steps(enabled, s, events);
            t.ingest.SetReader? && SameClose(s, t) && t.reader == s.reader && t.client
            && t.ingest == (if s.ingest.SetReader? then s.ingest else SetReader(s.streams))
    decreases StepsToReturn(s.ingest)
  {
    events := [];
    if !s.ingest.SetReader? {
      var t := IngestNext(enabled, s, Succeeds(CHUNK));
      assert Opening(t) && t.client && SameClose(s, t) && StepsToReturn(t.ingest) == StepsToReturn(s.ingest) - 1;
      var rest := OpensStream(enabled, t);
      events := FirstThen(NextOf(enabled), s, SENDS, rest);
    }
  }

  predicate SameClose(s: System, t: System) {
    t.closing == s.closing && t.closer == s.closer && t.cancelled == s.cancelled && t.clientClosed == s.clientClosed
  }

  /** close() reads _reader before the call has stored it: line 67 finds nothing, the stream is
      opened while the client is still there, and close() finishes without cancelling it. */
  lemma RaceClose(enabled: bool, s: System) returns (events: seq<Event>)
    requires Inv(enabled, s) && Opening(s) && s.closer == SetDown && s.client
    ensures var t := Steps(enabled, s, events);
            t.closing && t.closer == NotClosing && InFlight(t).Some? && t.cancelled == {}
  {
    var down := CloseNext(s);
    var read := CloseNext(down);
    assert read == s.(state := DOWN, closer := DropReader(None));
    assert Opening(read);
    var opening := OpensStream(enabled, read);
    var opened' := Steps(enabled, read, opening);
    var closing := FinishClose(enabled, opened');
    FinishedWithoutReader(opened');
    StepsAppend(NextOf(enabled), read, opening, closing);
    var later := FirstThen(NextOf(enabled), down, CloseStep, opening + closing);
    events := FirstThen(NextOf(enabled), s, CloseStep, later);
  }

  /** The failing input of close(): the ingest thread opens the first stream in its first five
      steps, all eight of close() run between lines 40 and 41, and the ingest thread starts
      reading. close() has finished and closed the client, no stream has been cancelled, and the
      loop reads on for as long as chunks arrive. */
  lemma StreamOutlivesClose(enabled: bool, opening: seq<Event>, closing: seq<Event>, reading: seq<Event>)
    requires Only(SENDS, opening) && |opening| == 5
    requires Only(CloseStep, closing) && |closing| == 8
    requires Only(SENDS, reading) && |reading| == 2
    ensures Steps(enabled, INITIAL, opening).ingest == SetReader(0)
    ensures var s := Steps(enabled, INITIAL, opening + closing + reading);
            && s.closing && s.closer == NotClosing && s.clientClosed
            && s.ingest == Iterating(0) && s.cancelled == {}
            && forall n: nat :: !AlwaysExits(enabled, s, n)
  {
    var opens := FirstStreamOpens(enabled);
    assert opening == opens;
    var streaming := Steps(enabled, INITIAL, opening);
    var closes := WholeClose(enabled, streaming);
    assert closing == closes;
    StepsAppend(NextOf(enabled), INITIAL, opening, closing);
    var closed := Steps(enabled, INITIAL, opening + closing);
    var starts := StartsReading(enabled, closed);
    assert reading == starts;
    StepsAppend(NextOf(enabled), INITIAL, opening + closing, reading);
    ExitExactly(enabled, opening + closing + reading);
  }

  lemma FirstStreamOpens(enabled: bool) returns (opening: seq<Event>)
    ensures Only(SENDS, opening) && |opening| == 5
    ensures var s := Steps(enabled, INITIAL, opening);
            && s.ingest == SetReader(0) && SameClose(INITIAL, s) && s.client && s.reader == None
  {
    var begun := IngestNext(enabled, INITIAL, Succeeds(CHUNK));
    var checked := IngestNext(enabled, begun, Succeeds(CHUNK));
    assert begun.ingest == CheckClosing && checked.ingest == CheckClient;
    var rest := OpensStream(enabled, checked);
    rest := FirstThen(NextOf(enabled), begun, SENDS, rest);
    opening := FirstThen(NextOf(enabled), INITIAL, SENDS, rest);
  }

  /** All of a first close() that finds no reader. */
  lemma WholeClose(enabled: bool, s: System) returns (events: seq<Event>)
    requires s.closer == NotClosing && s.client && s.reader == None
    ensures Only(CloseStep, events) && |events| == 8
    ensures Steps(enabled, s, events) ==
            s.(closing := true, state := DOWN, client := false, clientClosed := true)
  {
    var begun := CloseNext(s);
    var read := CloseNext(CloseNext(begun));
    assert begun == s.(closing := true, closer := SetDown);
    assert read == begun.(state := DOWN, closer := DropReader(None));
    assert Finished(begun) == Finished(CloseNext(begun)) == Finished(read);
    FinishedWithoutReader(read);
    var rest := FinishClose(enabled, begun);
    events := FirstThen(NextOf(enabled), s, CloseStep, rest);
  }

  lemma StartsReading(enabled: bool, s: System) returns (events: seq<Event>)
    requires s.ingest.SetReader?
    ensures Only(SENDS, events) && |events| == 2
    ensures Steps(enabled, s, events).ingest == Iterating(s.ingest.id) && SameClose(s, Steps(enabled, s, events))
  {
    var stored := IngestNext(enabled, s, Succeeds(CHUNK));
    assert stored.ingest == SetConnected(s.ingest.id);
    events := FirstThen(NextOf(enabled), stored, SENDS, []);
    events := FirstThen(NextOf(enabled), s, SENDS, events);
  }
}
