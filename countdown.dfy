/**
 * The hero banner's countdown: every second the page turns the signed number
 * of milliseconds left until the ceremony into whole days, hours, minutes and
 * seconds, clamping every field at zero once the ceremony has passed.
 *
 * The page computes with JavaScript doubles. This model uses exact arithmetic
 * instead: `Tick` follows the page's expression on exact reals (division, the
 * sign-of-dividend remainder, floor and the clamp at zero), and `Decompose` is
 * the same decomposition stated on integers. `TickMatchesDecompose` proves the
 * two agree on every input.
 */
module Countdown {

  const MsPerSecond: int := 1000
  const MsPerMinute: int := 60 * MsPerSecond
  const MsPerHour: int := 60 * MsPerMinute
  const MsPerDay: int := 24 * MsPerHour

  /** The `timeLeft` state shown under the title. */
  datatype Snapshot = Snapshot(days: int, hours: int, minutes: int, seconds: int)

  /** The snapshot shown before the first tick, and after the ceremony. */
  const Zero: Snapshot := Snapshot(0, 0, 0, 0)

  /** Every field non-negative; hours, minutes and seconds within their clock range. */
  predicate WellFormed(s: Snapshot)
  {
    s.days >= 0 && 0 <= s.hours < 24 && 0 <= s.minutes < 60 && 0 <= s.seconds < 60
  }

  /** The whole number of seconds a snapshot stands for. */
  function TotalSeconds(s: Snapshot): int
  {
    86400 * s.days + 3600 * s.hours + 60 * s.minutes + s.seconds
  }

  // ---------------------------------------------------------------------------
  // The page's expression, on exact reals
  // ---------------------------------------------------------------------------

  /** Rounding toward zero, which JavaScript's `%` uses for its quotient. */
  function Trunc(x: real): int
  {
    if x >= 0.0 then x.Floor else -((-x).Floor)
  }

  /** JavaScript's `%`: the remainder takes the sign of the dividend. */
  function JsRem(x: real, m: real): real
    requires m > 0.0
  {
    x - m * (Trunc(x / m) as real)
  }

  /** `Math.max(0, Math.floor(x))`. */
  function ClampedFloor(x: real): int
  {
    if x.Floor > 0 then x.Floor else 0
  }

  /** The days field: `Math.max(0, Math.floor(diff / (1000 * 60 * 60 * 24)))`. */
  function DaysField(diff: int): int
  {
    ClampedFloor((diff as real) / (MsPerDay as real))
  }

  /** A clock field: `Math.max(0, Math.floor((diff / unit) % m))`. */
  function ClockField(diff: int, unit: int, m: int): int
    requires unit > 0 && m > 0
  {
    ClampedFloor(JsRem((diff as real) / (unit as real), m as real))
  }

  /**
   * One tick of the interval callback: the snapshot for `target - now`
   * milliseconds, computed as the page computes it.
   */
  function Tick(target: int, now: int): (r: Snapshot)
    ensures WellFormed(r)
    ensures now >= target ==> r == Zero
    ensures now <= target ==> TotalSeconds(r) == (target - now) / MsPerSecond
  {
    var diff := target - now;
    FieldsMatchDecompose(diff);
    Snapshot(DaysField(diff), ClockField(diff, MsPerHour, 24),
             ClockField(diff, MsPerMinute, 60), ClockField(diff, MsPerSecond, 60))
  }

  // ---------------------------------------------------------------------------
  // The same decomposition on integers
  // ---------------------------------------------------------------------------

  /**
   * Whole days, and the hours, minutes and seconds left over, in `diff`
   * milliseconds; all zero for a negative `diff`.
   */
  function Decompose(diff: int): (r: Snapshot)
    ensures WellFormed(r)
    ensures diff >= 0 ==> TotalSeconds(r) == diff / MsPerSecond
    ensures diff < MsPerSecond ==> r == Zero
  {
    if diff < 0 then Zero
    else
      var r := Snapshot(diff / MsPerDay, (diff / MsPerHour) % 24,
                        (diff / MsPerMinute) % 60, (diff / MsPerSecond) % 60);
      DecomposeIsLossless(diff);
      r
  }

  /** Days, hours, minutes and seconds add back up to the whole seconds in `diff`. */
  lemma DecomposeIsLossless(diff: int)
    requires diff >= 0
    ensures 86400 * (diff / MsPerDay) + 3600 * ((diff / MsPerHour) % 24)
            + 60 * ((diff / MsPerMinute) % 60) + (diff / MsPerSecond) % 60
            == diff / MsPerSecond
  {
    var s := diff / 1000;
    var m := diff / 60000;
    var h := diff / 3600000;
    var d := diff / 86400000;
    assert m == s / 60;
    assert h == m / 60;
    assert d == h / 24;
    assert s == 60 * m + s % 60;
    assert m == 60 * h + m % 60;
    assert h == 24 * d + h % 24;
  }

  /**
   * The decomposition is the inverse of `TotalSeconds`: any well-formed
   * snapshot, plus any sub-second remainder, decomposes back to itself.
   */
  lemma DecomposeRoundTrip(s: Snapshot, ms: int)
    requires WellFormed(s) && 0 <= ms < MsPerSecond
    ensures Decompose(1000 * TotalSeconds(s) + ms) == s
  {
    var diff := TotalSeconds(s) * 1000 + ms;
    var minutes := 1440 * s.days + 60 * s.hours + s.minutes;
    var hours := 24 * s.days + s.hours;
    DivisionIsUnique(diff, 1000, TotalSeconds(s), ms);
    DivisionIsUnique(diff, 60000, minutes, 1000 * s.seconds + ms);
    DivisionIsUnique(diff, 3600000, hours, 60000 * s.minutes + 1000 * s.seconds + ms);
    DivisionIsUnique(diff, 86400000, s.days,
                     3600000 * s.hours + 60000 * s.minutes + 1000 * s.seconds + ms);
    DivisionIsUnique(TotalSeconds(s), 60, minutes, s.seconds);
    DivisionIsUnique(minutes, 60, hours, s.minutes);
    DivisionIsUnique(hours, 24, s.days, s.hours);
    assert Decompose(diff) == Snapshot(s.days, s.hours, s.minutes, s.seconds);
  }

  // ---------------------------------------------------------------------------
  // The page's expression agrees with the integer decomposition
  // ---------------------------------------------------------------------------

  /** Dividing exactly and then flooring is Dafny's integer division. */
  lemma FloorOfQuotient(d: int, k: int)
    requires k > 0
    ensures ((d as real) / (k as real)).Floor == d / k
  {
    var q, r := d / k, d % k;
    var x := (d as real) / (k as real);
    assert d == q * k + r;
    assert (d as real) == (q as real) * (k as real) + (r as real);
    assert x == (q as real) + (r as real) / (k as real);
    assert 0.0 <= (r as real) / (k as real) < 1.0;
  }

  /** For a non-negative dividend, `%` on the quotient is the integer remainder. */
  lemma ClockFieldNonNegative(diff: int, unit: int, m: int)
    requires diff >= 0 && unit > 0 && m > 0
    ensures ClockField(diff, unit, m) == (diff / unit) % m
  {
    var x := (diff as real) / (unit as real);
    assert x / (m as real) == (diff as real) / ((unit * m) as real);
    FloorOfQuotient(diff, unit * m);
    FloorOfQuotient(diff, unit);
    NestedDivision(diff, unit, m);
    var q := diff / (unit * m);
    assert Trunc(x / (m as real)) == q;
    assert JsRem(x, m as real) == x - (m * q) as real;
    assert (x - (m * q) as real).Floor == x.Floor - m * q;
    assert x.Floor - m * q == (diff / unit) % m;
  }

  /** Dividing by `a` and then by `b` is dividing by `a * b`. */
  lemma NestedDivision(d: int, a: int, b: int)
    requires d >= 0 && a > 0 && b > 0
    ensures d / a / b == d / (a * b)
  {
    var q1, r1 := d / a, d % a;
    var q2, r2 := q1 / b, q1 % b;
    assert d == q1 * a + r1;
    assert q1 == q2 * b + r2;
    assert q1 * a == q2 * (a * b) + r2 * a by {
      MultiplyOut(q2 * b, r2, a);
      assert (q2 * b) * a == q2 * (a * b);
    }
    assert r2 * a <= (b - 1) * a by {
      MultiplyMonotone(r2, b - 1, a);
    }
    assert (b - 1) * a == a * b - a;
    DivisionIsUnique(d, a * b, q2, r2 * a + r1);
  }

  /** Multiplying out a sum. */
  lemma MultiplyOut(x: int, y: int, k: int)
    ensures (x + y) * k == x * k + y * k
  {
  }

  /** Multiplying by a positive number keeps the order. */
  lemma MultiplyMonotone(x: int, y: int, k: int)
    requires x <= y && k > 0
    ensures x * k <= y * k
  {
    MultiplyOut(x, y - x, k);
    assert (y - x) * k >= 0;
  }

  /** The quotient is the only `q` with `d == q * k + r` and `0 <= r < k`. */
  lemma DivisionIsUnique(d: int, k: int, q: int, r: int)
    requires k > 0 && d == q * k + r && 0 <= r < k
    ensures d / k == q && d % k == r
  {
    var q', r' := d / k, d % k;
    assert d == q' * k + r';
    if q' < q {
      MultiplyMonotone(q' + 1, q, k);
      MultiplyOut(q', 1, k);
    } else if q' > q {
      MultiplyMonotone(q + 1, q', k);
      MultiplyOut(q, 1, k);
    }
  }

  /** For a negative dividend, `%` on the quotient is never positive, so the clamp gives zero. */
  lemma ClockFieldNegative(diff: int, unit: int, m: int)
    requires diff < 0 && unit > 0 && m > 0
    ensures ClockField(diff, unit, m) == 0
  {
    var x := (diff as real) / (unit as real);
    var y := x / (m as real);
    assert x < 0.0;
    assert y < 0.0;
    var t := Trunc(y);
    assert t == -((-y).Floor);
    assert (t as real) >= y;
    assert (m as real) * (t as real) >= (m as real) * y;
    assert (m as real) * y == x;
    assert JsRem(x, m as real) <= 0.0;
  }

  /** The page's expression and the integer decomposition agree on every input. */
  lemma FieldsMatchDecompose(diff: int)
    ensures Snapshot(DaysField(diff), ClockField(diff, MsPerHour, 24),
                     ClockField(diff, MsPerMinute, 60), ClockField(diff, MsPerSecond, 60))
            == Decompose(diff)
  {
    DaysFieldIsClamped(diff);
    if diff >= 0 {
      ClockFieldNonNegative(diff, MsPerHour, 24);
      ClockFieldNonNegative(diff, MsPerMinute, 60);
      ClockFieldNonNegative(diff, MsPerSecond, 60);
    } else {
      ClockFieldNegative(diff, MsPerHour, 24);
      ClockFieldNegative(diff, MsPerMinute, 60);
      ClockFieldNegative(diff, MsPerSecond, 60);
    }
  }

  /** The days field is the whole days in `diff`, or zero when `diff` is negative. */
  lemma DaysFieldIsClamped(diff: int)
    ensures DaysField(diff) == if diff < 0 then 0 else diff / MsPerDay
  {
    FloorOfQuotient(diff, MsPerDay);
  }

  /** The tick computed by the page is the integer decomposition of `target - now`. */
  lemma TickMatchesDecompose(target: int, now: int)
    ensures Tick(target, now) == Decompose(target - now)
  {
    FieldsMatchDecompose(target - now);
  }

  // ---------------------------------------------------------------------------
  // Properties of the countdown
  // ---------------------------------------------------------------------------

  /** 90061 seconds before the ceremony the page shows one day, one hour, one minute, one second. */
  lemma OneOfEachUnit(target: int)
    ensures Tick(target, target - 90061000) == Snapshot(1, 1, 1, 1)
  {
    DecomposeRoundTrip(Snapshot(1, 1, 1, 1), 0);
    TickMatchesDecompose(target, target - 90061000);
  }

  /** Time moving forward never makes the displayed countdown grow. */
  lemma CountdownNeverGrows(target: int, earlier: int, later: int)
    requires earlier <= later
    ensures TotalSeconds(Tick(target, later)) <= TotalSeconds(Tick(target, earlier))
  {
    var a, b := Tick(target, earlier), Tick(target, later);
    if later <= target {
      assert (target - later) / 1000 <= (target - earlier) / 1000;
    } else {
      assert b == Zero;
      assert TotalSeconds(a) >= 0;
    }
  }

  /**
   * The countdown state of the page: `timeLeft`, overwritten whole by each
   * tick of the one-second interval.
   */
  class Timer {
    const target: int
    var timeLeft: Snapshot

    /** Mounting the page: nothing has ticked yet. */
    constructor (target: int)
      ensures this.target == target && timeLeft == Zero
    {
      this.target := target;
      timeLeft := Zero;
    }

    /** One interval callback, with `now` read from the clock by the caller. */
    method OnTick(now: int)
      modifies this
      ensures timeLeft == Tick(target, now)
      ensures WellFormed(timeLeft)
      ensures now >= target ==> timeLeft == Zero
    {
      timeLeft := Tick(target, now);
    }
  }
}
