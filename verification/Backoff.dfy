/** Capped exponential backoff with up to 25% random jitter.

core/retry.py computes each delay in closed form; services/stream_ingest.py doubles a
variable. Delays are real numbers, in seconds; a random draw is a real in [0, 1). */
module Backoff {

  type Draw = f: real | 0.0 <= f < 1.0

  function Min(a: real, b: real): real { if b < a then b else a }

  function Pow2(n: nat): real { if n == 0 then 1.0 else 2.0 * Pow2(n - 1) }

  /** The closed form: min(base * 2^(attempt - 1), cap). */
  function Capped(base: real, cap: real, attempt: nat): real
    requires attempt >= 1
  {
    Min(base * Pow2(attempt - 1), cap)
  }

  /** The incremental form: start at base, double and cap after every sleep. */
  function Doubled(base: real, cap: real, attempt: nat): real
    requires attempt >= 1
  {
    if attempt == 1 then base else Min(Doubled(base, cap, attempt - 1) * 2.0, cap)
  }

  function Jittered(delay: real, draw: Draw): real { delay + delay * 0.25 * draw }

  function Sum(xs: seq<real>): real { if xs == [] then 0.0 else Sum(xs[..|xs| - 1]) + xs[|xs| - 1] }

  lemma {:induction false} Pow2Positive(n: nat)
    ensures Pow2(n) >= 1.0
  {
    if n == 0 {
    } else {
      Pow2Positive(n - 1);
    }
  }

  /** base * 2^n without a product. */
  function Scaled(base: real, n: nat): real { if n == 0 then base else 2.0 * Scaled(base, n - 1) }

  lemma {:induction false} ScaledIsPower(base: real, n: nat)
    requires base >= 0.0
    ensures base * Pow2(n) == Scaled(base, n) >= 0.0
  {
    if n == 0 {
    } else {
      ScaledIsPower(base, n - 1);
      DoubleFactor(base, Pow2(n - 1));
    }
  }

  lemma DoubleFactor(base: real, p: real)
    ensures base * (2.0 * p) == 2.0 * (base * p)
  {
  }

  /** Doubling a delay that has been capped, and capping again, caps the doubled delay. */
  lemma {:induction false} DoubledIsScaled(base: real, cap: real, attempt: nat)
    requires attempt >= 1 && base >= 0.0 && cap >= 0.0
    ensures Doubled(base, cap, attempt) == if attempt == 1 then base else Min(Scaled(base, attempt - 1), cap)
    ensures Scaled(base, attempt - 1) >= 0.0
  {
    if attempt == 1 {
    } else {
      DoubledIsScaled(base, cap, attempt - 1);
    }
  }

  /** The doubled variable holds the closed form at every attempt, except at the first one
      when the base itself is over the cap: only the closed form caps it. */
  lemma {:induction false} DoubledIsCapped(base: real, cap: real, attempt: nat)
    requires attempt >= 1 && base >= 0.0 && cap >= 0.0
    ensures Doubled(base, cap, attempt) == Capped(base, cap, attempt) <==> attempt >= 2 || base <= cap
    ensures Doubled(base, cap, attempt) >= 0.0
  {
    DoubledIsScaled(base, cap, attempt);
    ScaledIsPower(base, attempt - 1);
  }

  lemma JitterBounds(delay: real, draw: Draw)
    requires delay > 0.0
    ensures delay <= Jittered(delay, draw) < 1.25 * delay
  {
    var quarter := delay * 0.25;
    MulBelow(quarter, draw);
    assert Jittered(delay, draw) == delay + quarter * draw;
  }

  lemma MulBelow(x: real, draw: Draw)
    requires x > 0.0
    ensures 0.0 <= x * draw < x
  {
    assert x - x * draw == x * (1.0 - draw);
  }

  lemma CappedPositive(base: real, cap: real, attempt: nat)
    requires attempt >= 1 && base > 0.0 && cap > 0.0
    ensures 0.0 < Capped(base, cap, attempt) <= cap
  {
    Pow2Positive(attempt - 1);
    assert base * Pow2(attempt - 1) >= base * 1.0;
  }

  /** Whatever the draws, a sleep on delay e is longer than one on delay d. */
  ghost predicate AlwaysLonger(d: real, e: real) {
    forall f: Draw, g: Draw :: Jittered(d, f) < Jittered(e, g)
  }

  /** Which sleeps are longer than the one before whatever the random draws: exactly those
      that follow an uncapped delay leaving a quarter of itself below the cap. */
  lemma SleepsIncreaseExactly(base: real, cap: real, attempt: nat)
    requires attempt >= 1 && base > 0.0 && cap > 0.0
    ensures AlwaysLonger(Capped(base, cap, attempt), Capped(base, cap, attempt + 1))
            <==> 1.25 * (base * Pow2(attempt - 1)) <= cap
  {
    CappedPositive(base, cap, attempt);
    CappedPositive(base, cap, attempt + 1);
    var raw := base * Pow2(attempt - 1);
    assert base * Pow2(attempt) == 2.0 * raw;
    var d, e := Capped(base, cap, attempt), Capped(base, cap, attempt + 1);
    if 1.25 * raw <= cap {
      assert 1.25 * d <= e;
      forall f: Draw, g: Draw ensures Jittered(d, f) < Jittered(e, g) {
        JitterBounds(d, f);
        JitterBounds(e, g);
      }
    } else {
      assert e < 1.25 * d;
      OvertakenByJitter(d, e);
    }
  }

  /** Draws that make a sleep on delay d at least as long as one on delay e. */
  lemma OvertakenByJitter(d: real, e: real)
    requires 0.0 < d && e < 1.25 * d
    ensures exists f: Draw, g: Draw :: Jittered(d, f) >= Jittered(e, g)
  {
    var none: Draw := 0.0;
    assert Jittered(e, none) == e;
    if e <= d {
      assert Jittered(d, none) == d;
    } else {
      var f := DrawFor(d, e);
      assert Jittered(d, f) >= Jittered(e, none);
    }
  }

  /** The draw that stretches delay d to e. */
  lemma DrawFor(d: real, e: real) returns (f: Draw)
    requires 0.0 < d < e < 1.25 * d
    ensures Jittered(d, f) == e
  {
    var x := (e - d) / d;
    Quotient(e - d, d);
    LessFactor(0.0, x, d);
    LessFactor(x, 0.25, d);
    f := 4.0 * x;
    assert d * 0.25 * f == x * d;
  }

  lemma Quotient(a: real, d: real)
    requires d > 0.0
    ensures (a / d) * d == a
  {
  }

  lemma LessFactor(x: real, y: real, d: real)
    requires d > 0.0 && x * d < y * d
    ensures x < y
  {
    PositiveFactor(y - x, d);
  }

  lemma PositiveFactor(x: real, d: real)
    requires d > 0.0 && x * d > 0.0
    ensures x > 0.0
  {
  }

  /** The sleeps of a retry loop that doubles from base: each one bounded below by its delay
      and above by a quarter more, so in total between the delays' sum and 1.25 times it. */
  lemma {:induction false} TotalSleep(sleeps: seq<real>, base: real, cap: real, random: nat -> Draw)
    requires base > 0.0 && cap > 0.0
    requires forall i :: 0 <= i < |sleeps| ==> sleeps[i] == Jittered(Capped(base, cap, i + 1), random(i))
    ensures CappedSum(base, cap, |sleeps|) <= Sum(sleeps) <= 1.25 * CappedSum(base, cap, |sleeps|)
    ensures sleeps != [] ==> Sum(sleeps) < 1.25 * CappedSum(base, cap, |sleeps|)
  {
    if sleeps == [] {
    } else {
      var n := |sleeps| - 1;
      TotalSleep(sleeps[..n], base, cap, random);
      CappedPositive(base, cap, n + 1);
      JitterBounds(Capped(base, cap, n + 1), random(n));
    }
  }

  /** While a delay leaves a quarter of itself below the cap, the next sleep is longer. */
  lemma SleepsGrow(sleeps: seq<real>, base: real, cap: real, random: nat -> Draw, i: nat)
    requires base > 0.0 && cap > 0.0 && i + 1 < |sleeps|
    requires forall j :: 0 <= j < |sleeps| ==> sleeps[j] == Jittered(Capped(base, cap, j + 1), random(j))
    requires 1.25 * (base * Pow2(i)) <= cap
    ensures 0.0 < sleeps[i] < sleeps[i + 1]
  {
    SleepsIncreaseExactly(base, cap, i + 1);
    CappedPositive(base, cap, i + 1);
    JitterBounds(Capped(base, cap, i + 1), random(i));
    assert sleeps[i + 1] == Jittered(Capped(base, cap, i + 1 + 1), random(i + 1));
  }

  function CappedSum(base: real, cap: real, n: nat): real {
    if n == 0 then 0.0 else CappedSum(base, cap, n - 1) + Capped(base, cap, n)
  }
}
