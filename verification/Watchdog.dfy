/** When the disconnect watchdog must fire, said of the samples it takes.

The watchdog of services/stream_ingest.py sleeps, samples the connection state and, if it is
not connected, reads the clock. It sees samples only. */
module Watchdog {
  import opened Backoff

  datatype ConnectionState = CONNECTED | RECONNECTING | DOWN

  /** One poll: the state sampled and the time of the sample. */
  datatype Sample = Sample(state: ConnectionState, at: real)

  function PollInterval(threshold: real): real { Min(threshold / 2.0, 5.0) }

  ghost predicate ClockAscends(samples: seq<Sample>) {
    forall i, j :: 0 <= i < j < |samples| ==> samples[i].at <= samples[j].at
  }

  /** Samples m to n all found the transport not connected. */
  predicate Disconnected(samples: seq<Sample>, m: nat, n: nat)
    requires n < |samples|
  {
    forall i :: m <= i <= n ==> samples[i].state != CONNECTED
  }

  /** At sample n the transport has been found not connected at every sample of a span of at
      least the threshold. */
  ghost predicate Fires(samples: seq<Sample>, threshold: real, n: nat)
    requires n < |samples|
  {
    exists m: nat :: m < n && Disconnected(samples, m, n) && samples[n].at - samples[m].at >= threshold
  }

  /** Said of the samples: none from m to n found the transport connected, and they span the
      threshold. */
  lemma FiresExactly(samples: seq<Sample>, threshold: real, n: nat)
    requires n < |samples|
    ensures Fires(samples, threshold, n) <==>
            exists m: nat :: m < n && samples[n].at - samples[m].at >= threshold &&
                             forall i :: m <= i <= n ==> samples[i].state != CONNECTED
  {
    if m: nat :| m < n && Disconnected(samples, m, n) && samples[n].at - samples[m].at >= threshold {
      assert forall i :: m <= i <= n ==> samples[i].state != CONNECTED;
    }
    if m: nat :| m < n && samples[n].at - samples[m].at >= threshold &&
                 forall i :: m <= i <= n ==> samples[i].state != CONNECTED
    {
      assert Disconnected(samples, m, n);
    }
  }

  /** A transport found connected less than the threshold ago keeps the watchdog from firing. */
  lemma ReconnectPreventsFiring(samples: seq<Sample>, threshold: real, n: nat)
    requires n < |samples| && ClockAscends(samples) && Fires(samples, threshold, n)
    ensures forall i :: 0 <= i <= n && samples[i].at > samples[n].at - threshold ==> samples[i].state != CONNECTED
  {
    var m: nat :| m < n && Disconnected(samples, m, n) && samples[n].at - samples[m].at >= threshold;
    assert forall i :: 0 <= i < m ==> samples[i].at <= samples[m].at;
  }

  // ---- latency ---------------------------------------------------------------------------------

  function Prefix(samples: nat -> Sample, n: nat): seq<Sample> { seq(n, i requires 0 <= i < n => samples(i)) }

  /** Polls no closer together than the interval and no further apart than slack more, the
      first one counted from start. */
  ghost predicate PollsEvery(samples: nat -> Sample, start: real, poll: real, slack: real) {
    && start + poll <= samples(0).at <= start + poll + slack
    && forall i, j :: 0 <= i && j == i + 1 ==> samples(i).at + poll <= samples(j).at <= samples(i).at + poll + slack
  }

  lemma {:induction false} TimePasses(samples: nat -> Sample, start: real, poll: real, slack: real, m: nat, k: nat)
    requires poll > 0.0 && PollsEvery(samples, start, poll, slack)
    ensures samples(m + k).at >= samples(m).at + k as real * poll
  {
    if k == 0 {
    } else {
      TimePasses(samples, start, poll, slack, m, k - 1);
      var i, j: nat := m + k - 1, m + k;
      assert samples(i).at + poll <= samples(j).at;
      assert k as real * poll == (k - 1) as real * poll + poll;
    }
  }

  lemma SamplesAscend(samples: nat -> Sample, start: real, poll: real, slack: real, count: nat)
    requires poll > 0.0 && PollsEvery(samples, start, poll, slack)
    ensures ClockAscends(Prefix(samples, count))
  {
    forall i, j | 0 <= i < j < count ensures samples(i).at <= samples(j).at {
      LaterSample(samples, start, poll, slack, i, j);
    }
  }

  lemma LaterSample(samples: nat -> Sample, start: real, poll: real, slack: real, i: nat, j: nat)
    requires poll > 0.0 && PollsEvery(samples, start, poll, slack) && i <= j
    ensures samples(i).at <= samples(j).at
  {
    TimePasses(samples, start, poll, slack, i, j - i);
    NonNegative((j - i) as real, poll);
  }

  /** The first sample from m on taken at or after time t. */
  lemma FirstAtOrAfter(samples: nat -> Sample, start: real, poll: real, slack: real, m: nat, t: real) returns (n: nat)
    requires poll > 0.0 && PollsEvery(samples, start, poll, slack)
    ensures n >= m && samples(n).at >= t
    ensures forall i :: m <= i < n ==> samples(i).at < t
  {
    var gap := t - samples(m).at;
    var far: nat := if gap <= 0.0 then 0 else (gap / poll).Floor + 1;
    if gap > 0.0 {
      assert far as real > gap / poll;
      Exceeds(far as real, gap, poll);
    }
    TimePasses(samples, start, poll, slack, m, far);
    n := m;
    while samples(n).at < t
      invariant m <= n <= m + far
      invariant forall i :: m <= i < n ==> samples(i).at < t
      decreases m + far - n
    {
      n := n + 1;
    }
  }

  lemma Exceeds(k: real, gap: real, poll: real)
    requires poll > 0.0 && k > gap / poll
    ensures k * poll > gap
  {
    var q := gap / poll;
    assert q * poll == gap;
    assert (k - q) * poll > 0.0;
    assert k * poll == (k - q) * poll + q * poll;
  }

  /** When the watchdog must have fired, if the transport is down from t on: within two polls of
      the threshold, so within ten seconds of it and within twice the threshold, but for slack. */
  function Deadline(threshold: real, slack: real, t: real): (d: real)
    ensures d <= t + threshold + 10.0 + 2.0 * slack
    ensures d <= t + 2.0 * threshold + 2.0 * slack
  {
    t + threshold + 2.0 * (PollInterval(threshold) + slack)
  }

  /** If the transport is found not connected at every sample from time t on, the watchdog has
      a reason to fire before the deadline, however often it was connected before. */
  lemma FiresInTime(samples: nat -> Sample, threshold: real, start: real, slack: real, t: real) returns (n: nat)
    requires threshold > 0.0 && slack >= 0.0 && start <= t
    requires PollsEvery(samples, start, PollInterval(threshold), slack)
    requires forall i: nat :: samples(i).at >= t ==> samples(i).state != CONNECTED
    ensures Fires(Prefix(samples, n + 1), threshold, n)
    ensures samples(n).at < Deadline(threshold, slack, t)
  {
    var poll := PollInterval(threshold);
    var m := FirstSoonAfter(samples, start, poll, slack, 0, t);
    assert samples(m).at <= t + poll + slack;
    n := FirstSoonAfter(samples, start, poll, slack, m, samples(m).at + threshold);
    var seen := Prefix(samples, n + 1);
    forall j | m <= j <= n ensures seen[j].state != CONNECTED {
      LaterSample(samples, start, poll, slack, m, j);
      assert samples(j).at >= t;
    }
    assert Disconnected(seen, m, n) && seen[n].at - seen[m].at >= threshold;
  }

  /** The first sample from m on taken at or after t, less than a poll late if it is not m. */
  lemma FirstSoonAfter(samples: nat -> Sample, start: real, poll: real, slack: real, m: nat, t: real) returns (n: nat)
    requires poll > 0.0 && PollsEvery(samples, start, poll, slack)
    ensures n >= m && samples(n).at >= t
    ensures n > m ==> samples(n).at < t + poll + slack
  {
    n := FirstAtOrAfter(samples, start, poll, slack, m, t);
    if n > m {
      var i: nat := n - 1;
      assert samples(i).at < t && samples(n).at <= samples(i).at + poll + slack;
    }
  }

  lemma NonNegative(a: real, b: real)
    requires a >= 0.0 && b >= 0.0
    ensures a * b >= 0.0
  {
  }

  /** Firing looks only at the samples up to it. */
  lemma FiresInLonger(samples: nat -> Sample, threshold: real, n: nat, count: nat)
    requires n < count && Fires(Prefix(samples, n + 1), threshold, n)
    ensures Fires(Prefix(samples, count), threshold, n)
  {
    var short, long := Prefix(samples, n + 1), Prefix(samples, count);
    var m: nat :| m < n && Disconnected(short, m, n) && short[n].at - short[m].at >= threshold;
    forall i | m <= i <= n ensures long[i].state != CONNECTED {
      assert short[i] == long[i];
    }
    assert Disconnected(long, m, n);
  }

  /** So the samples of any watch that lasts to the deadline contain one that fires before it. */
  lemma OutageFires(samples: nat -> Sample, threshold: real, start: real, slack: real, t: real, count: nat)
    returns (n: nat)
    requires threshold > 0.0 && slack >= 0.0 && start <= t
    requires PollsEvery(samples, start, PollInterval(threshold), slack)
    requires forall i: nat :: samples(i).at >= t ==> samples(i).state != CONNECTED
    requires count > 0 && samples(count - 1).at >= Deadline(threshold, slack, t)
    ensures n < count && Fires(Prefix(samples, count), threshold, n) && samples(n).at < Deadline(threshold, slack, t)
  {
    n := FiresInTime(samples, threshold, start, slack, t);
    if n >= count { LaterSample(samples, start, PollInterval(threshold), slack, count - 1, n); }
    FiresInLonger(samples, threshold, n, count);
  }
}
