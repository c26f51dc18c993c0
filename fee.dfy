/**
 * The fee arithmetic of the rental save hook.
 *
 * Rates and fees are whole cents (the decimal fields keep two places) and
 * durations are whole seconds, so `round(hours * hourly_rate, 2)` becomes
 * rounding the rational `seconds * rateCents / 3600` to a whole number of
 * cents with Python's default decimal rounding, round-half-even.
 */
module FeeCalculator {

  const SecondsPerHour: int := 3600

  /** The integer nearest to n / d; a tie (a remainder of exactly half) goes to the even neighbour. */
  function RoundHalfEven(n: int, d: int): (q: int)
    requires d > 0
    ensures -d <= 2 * (n - q * d) <= d
    ensures 2 * (n - q * d) == d || 2 * (n - q * d) == -d ==> q % 2 == 0
  {
    var fl, rem := n / d, n % d;
    assert n == fl * d + rem;
    assert (fl + 1) * d == fl * d + d;
    if 2 * rem < d then fl
    else if 2 * rem > d then fl + 1
    else if fl % 2 == 0 then fl
    else fl + 1
  }

  /** `a <= b` carries over to multiples of a non-negative number. */
  lemma {:induction false} MulMonotone(a: int, b: int, d: int)
    ensures a <= b && d >= 0 ==> a * d <= b * d
  {
    assert b * d - a * d == (b - a) * d;
  }

  /** One more multiple of d. */
  lemma MulSucc(a: int, d: int)
    ensures (a + 1) * d == a * d + d
  {
  }

  /** The two ensures of RoundHalfEven pin its result down: no other integer meets them. */
  lemma {:induction false} RoundHalfEvenUnique(n: int, d: int, q': int)
    requires d > 0
    requires -d <= 2 * (n - q' * d) <= d
    requires 2 * (n - q' * d) == d || 2 * (n - q' * d) == -d ==> q' % 2 == 0
    ensures q' == RoundHalfEven(n, d)
  {
    var q := RoundHalfEven(n, d);
    MulSucc(q, d);
    MulSucc(q + 1, d);
    MulSucc(q', d);
    MulSucc(q' + 1, d);
    MulMonotone(q + 1, q', d);
    MulMonotone(q + 2, q', d);
    MulMonotone(q' + 1, q, d);
    MulMonotone(q' + 2, q, d);
    if q' > q {
      assert false;
    } else if q' < q {
      assert false;
    }
  }

  /** Rounding never reverses the order of two numerators. */
  lemma {:induction false} RoundHalfEvenMonotone(n1: int, n2: int, d: int)
    requires d > 0 && n1 <= n2
    ensures RoundHalfEven(n1, d) <= RoundHalfEven(n2, d)
  {
    var q1, q2 := RoundHalfEven(n1, d), RoundHalfEven(n2, d);
    MulSucc(q2, d);
    MulMonotone(q2 + 1, q1, d);
    if q1 > q2 {
      assert false;
    }
  }

  /**
   * The fee in cents for `seconds` of riding at `rateCents` per hour: the
   * exact amount `seconds * rateCents / 3600` rounded half-even to a cent.
   */
  function Fee(seconds: int, rateCents: int): (fee: int)
    ensures -SecondsPerHour <= 2 * (seconds * rateCents - fee * SecondsPerHour) <= SecondsPerHour
    ensures (seconds * rateCents) % SecondsPerHour == 0 ==> fee * SecondsPerHour == seconds * rateCents
  {
    var n := seconds * rateCents;
    var q := RoundHalfEven(n, SecondsPerHour);
    assert n % SecondsPerHour == 0 ==> q == n / SecondsPerHour by {
      if n % SecondsPerHour == 0 {
        RoundHalfEvenUnique(n, SecondsPerHour, n / SecondsPerHour);
      }
    }
    q
  }

  /** Exactly half a cent rounds to the even neighbour, in both directions. */
  lemma {:induction false} FeeTies(seconds: int, rateCents: int)
    requires 2 * ((seconds * rateCents) % SecondsPerHour) == SecondsPerHour
    ensures Fee(seconds, rateCents) % 2 == 0
    ensures Fee(seconds, rateCents) == (seconds * rateCents) / SecondsPerHour
         || Fee(seconds, rateCents) == (seconds * rateCents) / SecondsPerHour + 1
  {
  }

  /** Concrete values: one hour, half an hour and nothing at 50.00 an hour, and two half-cent ties. */
  lemma FeeExamples()
    ensures Fee(3600, 5000) == 5000
    ensures Fee(1800, 5000) == 2500
    ensures Fee(0, 5000) == 0
    ensures Fee(7200, 1000) == 2000
    ensures Fee(1800, 1) == 0
    ensures Fee(5400, 1) == 2
  {
  }

  /** A ride of no length, or at a zero rate, costs nothing. */
  lemma {:induction false} FeeZero(seconds: int, rateCents: int)
    requires seconds == 0 || rateCents == 0
    ensures Fee(seconds, rateCents) == 0
  {
    assert seconds * rateCents == 0;
  }

  /** A non-negative ride at a non-negative rate has a non-negative fee. */
  lemma {:induction false} FeeNonNegative(seconds: int, rateCents: int)
    requires seconds >= 0 && rateCents >= 0
    ensures Fee(seconds, rateCents) >= 0
  {
    MulMonotone(0, seconds, rateCents);
    RoundHalfEvenMonotone(0, seconds * rateCents, SecondsPerHour);
    RoundHalfEvenUnique(0, SecondsPerHour, 0);
  }

  /** At a non-negative rate, a longer ride never costs less. */
  lemma {:induction false} FeeMonotoneInDuration(s1: int, s2: int, rateCents: int)
    requires s1 <= s2 && rateCents >= 0
    ensures Fee(s1, rateCents) <= Fee(s2, rateCents)
  {
    MulMonotone(s1, s2, rateCents);
    RoundHalfEvenMonotone(s1 * rateCents, s2 * rateCents, SecondsPerHour);
  }
}
