/** `CountdownTimer.update`: the time left until the offer ends, as whole
    days, hours, minutes and seconds. `Date.getTime` counts whole
    milliseconds, so both instants are integers; the clock is a parameter.
    On a distance that is not negative, `Math.floor` of a quotient and the
    remainder operator `%` of JavaScript agree with Dafny's `/` and `%`. */
module Countdown {

  /** The script's `1000`, `1000 * 60`, `1000 * 60 * 60` and
      `1000 * 60 * 60 * 24`. */
  const MsPerSecond: nat := 1000
  const MsPerMinute: nat := 60000
  const MsPerHour: nat := 3600000
  const MsPerDay: nat := 86400000

  /** What the timer shows: the expiry notice, or the four numbers. */
  datatype CountdownView =
    | Expired
    | Remaining(days: nat, hours: nat, minutes: nat, seconds: nat)

  /** The milliseconds of a view, the sub-second rest left out. */
  function Millis(days: nat, hours: nat, minutes: nat, seconds: nat): nat {
    days * MsPerDay + hours * MsPerHour + minutes * MsPerMinute + seconds * MsPerSecond
  }

  /** A well-formed reading of a distance: hours, minutes and seconds below
      their carry, and the distance at most one second past the reading. */
  predicate Reads(d: int, days: nat, hours: nat, minutes: nat, seconds: nat) {
    && hours < 24 && minutes < 60 && seconds < 60
    && Millis(days, hours, minutes, seconds) <= d < Millis(days, hours, minutes, seconds) + MsPerSecond
  }

  /** `update` at the instant `now`, counting down to `target`. */
  function Update(target: int, now: int): (v: CountdownView)
    ensures v.Expired? <==> target < now
  {
    var distance := target - now;
    if distance < 0 then Expired
    else
      Remaining(distance / MsPerDay,
                (distance % MsPerDay) / MsPerHour,
                (distance % MsPerHour) / MsPerMinute,
                (distance % MsPerMinute) / MsPerSecond)
  }

  /** Quotient and remainder are the only pair that rebuilds the dividend. */
  lemma DivModUnique(n: int, dv: nat, q: int, r: int)
    requires dv > 0 && 0 <= r < dv && n == q * dv + r
    ensures n / dv == q && n % dv == r
  {
    var q2, r2 := n / dv, n % dv;
    assert (q - q2) * dv == r2 - r by {
      assert q * dv - q2 * dv == (q - q2) * dv;
    }
    if q > q2 {
      AtLeastOnce(q - q2, dv);
    } else if q < q2 {
      AtLeastOnce(q2 - q, dv);
    }
  }

  /** A positive multiple of a number is at least that number. */
  lemma {:induction false} AtLeastOnce(k: int, dv: nat)
    requires k >= 1
    ensures k * dv >= dv
    decreases k
  {
    if k > 1 {
      AtLeastOnce(k - 1, dv);
      assert k * dv == (k - 1) * dv + dv;
    }
  }

  /** The numbers shown are a well-formed reading of the distance. */
  lemma UpdateReads(target: int, now: int)
    requires target >= now
    ensures var v := Update(target, now);
            v.Remaining? && Reads(target - now, v.days, v.hours, v.minutes, v.seconds)
  {
    var d := target - now;
    var days, r1 := d / MsPerDay, d % MsPerDay;
    var hours, r2 := r1 / MsPerHour, r1 % MsPerHour;
    var minutes, r3 := r2 / MsPerMinute, r2 % MsPerMinute;
    var seconds, r4 := r3 / MsPerSecond, r3 % MsPerSecond;
    DivModUnique(d, MsPerHour, days * 24 + hours, r2);
    DivModUnique(d, MsPerMinute, days * 1440 + hours * 60 + minutes, r3);
    assert hours < 24 && minutes < 60 && seconds < 60;
    assert d == Millis(days, hours, minutes, seconds) + r4;
  }

  /** A well-formed reading of a distance is unique, so the view is the only
      one that reads the distance correctly. */
  lemma ReadsUnique(d: int, days: nat, hours: nat, minutes: nat, seconds: nat)
    requires d >= 0 && Reads(d, days, hours, minutes, seconds)
    ensures Update(d, 0) == Remaining(days, hours, minutes, seconds)
  {
    var r := d - Millis(days, hours, minutes, seconds);
    var inDay := hours * MsPerHour + minutes * MsPerMinute + seconds * MsPerSecond + r;
    var inHour := minutes * MsPerMinute + seconds * MsPerSecond + r;
    var inMinute := seconds * MsPerSecond + r;
    DivModUnique(d, MsPerDay, days, inDay);
    DivModUnique(inDay, MsPerHour, hours, inHour);
    DivModUnique(d, MsPerHour, days * 24 + hours, inHour);
    DivModUnique(inHour, MsPerMinute, minutes, inMinute);
    DivModUnique(d, MsPerMinute, days * 1440 + hours * 60 + minutes, inMinute);
    DivModUnique(inMinute, MsPerSecond, seconds, r);
  }
}
