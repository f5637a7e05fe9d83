/** Runs of a step machine, for the machines of both transports. */
module Machine {

  function Steps<S, E>(next: (S, E) -> S, s: S, events: seq<E>): S {
    if events == [] then s else next(Steps(next, s, events[..|events| - 1]), events[|events| - 1])
  }

  lemma StepsSnoc<S, E>(next: (S, E) -> S, s: S, events: seq<E>, e: E)
    ensures Steps(next, s, events + [e]) == next(Steps(next, s, events), e)
  {
    assert (events + [e])[..|events|] == events;
  }

  lemma {:induction false} StepsAppend<S, E>(next: (S, E) -> S, s: S, a: seq<E>, b: seq<E>)
    ensures Steps(next, s, a + b) == Steps(next, Steps(next, s, a), b)
  {
    if b == [] {
      assert a + b == a;
    } else {
      StepsAppend(next, s, a, b[..|b| - 1]);
      assert (a + b)[..|a + b| - 1] == a + b[..|b| - 1];
    }
  }

  /** One event before the rest. */
  lemma FirstThen<S, E>(next: (S, E) -> S, s: S, e: E, rest: seq<E>) returns (events: seq<E>)
    ensures events == [e] + rest && Steps(next, s, events) == Steps(next, next(s, e), rest)
  {
    events := [e] + rest;
    StepsAppend(next, s, [e], rest);
    StepsSnoc(next, s, [], e);
  }

  /** How many of the events count. */
  function Tally<E>(counts: E -> bool, events: seq<E>): nat {
    if events == [] then 0
    else Tally(counts, events[..|events| - 1]) + if counts(events[|events| - 1]) then 1 else 0
  }

  lemma TallySnoc<E>(counts: E -> bool, events: seq<E>, e: E)
    ensures Tally(counts, events + [e]) == Tally(counts, events) + if counts(e) then 1 else 0
  {
    assert (events + [e])[..|events|] == events;
  }

  /** All events are e. */
  ghost predicate Only<E>(e: E, events: seq<E>) { forall i :: 0 <= i < |events| ==> events[i] == e }

  function Times<E>(e: E, n: nat): seq<E> { if n == 0 then [] else Times(e, n - 1) + [e] }

  lemma {:induction false} TimesTally<E>(counts: E -> bool, e: E, n: nat)
    requires counts(e)
    ensures Tally(counts, Times(e, n)) == n && Only(e, Times(e, n))
  {
    if n == 0 {
    } else {
      TimesTally(counts, e, n - 1);
      assert Times(e, n)[..|Times(e, n)| - 1] == Times(e, n - 1);
    }
  }
}
