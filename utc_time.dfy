/** Instants are integer milliseconds since 1970-01-01T00:00:00Z, as in a
    JavaScript Date. Calendar fields are read in UTC; the frontend's local
    clock is taken to be UTC as well. */
module UtcTime {

  const SecondMs: int := 1000
  const MinuteMs: int := 60000
  const HourMs: int := 3600000
  const DayMs: int := 86400000

  /** Whole days since the epoch (floor division, as JavaScript's Day(t)). */
  function DayNumber(t: int): int {
    t / DayMs
  }

  /** The instant `setUTCHours(0, 0, 0, 0)` produces: midnight of t's day. */
  function Midnight(t: int): (m: int)
    ensures m <= t < m + DayMs
    ensures m == DayNumber(t) * DayMs
  {
    t - t % DayMs
  }

  /** getUTCHours */
  function Hours(t: int): (h: int)
    ensures 0 <= h < 24
    ensures Midnight(t) + h * HourMs <= t < Midnight(t) + (h + 1) * HourMs
  {
    (t % DayMs) / HourMs
  }

  /** getUTCMinutes */
  function Minutes(t: int): (m: int)
    ensures 0 <= m < 60
  {
    (t % HourMs) / MinuteMs
  }

  /** getUTCDay: 0 is Sunday, 6 is Saturday; the epoch fell on a Thursday. */
  function Weekday(t: int): (d: int)
    ensures 0 <= d < 7
  {
    (DayNumber(t) + 4) % 7
  }

  /** `setUTCHours(h, m, s, ms)`: keeps t's day and sets the time of day.
      Out-of-range fields roll over into neighbouring days, as in JavaScript. */
  function SetHms(t: int, h: int, m: int, s: int, ms: int): int {
    Midnight(t) + h * HourMs + m * MinuteMs + s * SecondMs + ms
  }

  /** `setUTCHours(h)` with one argument: minutes, seconds and milliseconds
      of t are kept. */
  function SetHour(t: int, h: int): int {
    Midnight(t) + h * HourMs + t % HourMs
  }

  /** `setUTCHours(h, m)` with two arguments: seconds and milliseconds of t
      are kept. */
  function SetHourMinute(t: int, h: int, m: int): int {
    Midnight(t) + h * HourMs + m * MinuteMs + t % MinuteMs
  }

  /** Floor division and remainder are determined by any quotient and
      remainder in range. */
  lemma Euclid(a: int, q: int, b: int, r: int)
    requires 0 < b && 0 <= r < b && a == q * b + r
    ensures a / b == q && a % b == r
  {
    var k := q - a / b;
    assert k * b == a % b - r;
    MultipleOutside(k, b);
  }

  /** A non-zero multiple of b is at least b away from zero. */
  lemma {:induction false} MultipleOutside(k: int, b: int)
    requires 0 < b
    ensures k > 0 ==> k * b >= b
    ensures k < 0 ==> k * b <= -b
    decreases if k < 0 then -k else k
  {
    if k > 1 {
      MultipleOutside(k - 1, b);
      assert k * b == (k - 1) * b + b;
    } else if k < -1 {
      MultipleOutside(k + 1, b);
      assert k * b == (k + 1) * b - b;
    }
  }

  /** Splitting an instant into day and time of day. */
  lemma DayAndTime(d: int, x: int)
    requires 0 <= x < DayMs
    ensures DayNumber(d * DayMs + x) == d
    ensures Midnight(d * DayMs + x) == d * DayMs
    ensures (d * DayMs + x) % DayMs == x
  {
    Euclid(d * DayMs + x, d, DayMs, x);
  }

  /** Reading the hour and minute back from an instant built from them. */
  lemma FieldsOf(d: int, h: int, m: int, rest: int)
    requires 0 <= h < 24 && 0 <= m < 60 && 0 <= rest < MinuteMs
    ensures DayNumber(d * DayMs + h * HourMs + m * MinuteMs + rest) == d
    ensures Midnight(d * DayMs + h * HourMs + m * MinuteMs + rest) == d * DayMs
    ensures Hours(d * DayMs + h * HourMs + m * MinuteMs + rest) == h
    ensures Minutes(d * DayMs + h * HourMs + m * MinuteMs + rest) == m
    ensures (d * DayMs + h * HourMs + m * MinuteMs + rest) % MinuteMs == rest
  {
    var y := m * MinuteMs + rest;
    var x := h * HourMs + y;
    var t := d * DayMs + x;
    DayAndTime(d, x);
    Euclid(x, h, HourMs, y);
    Euclid(t, d * 24 + h, HourMs, y);
    Euclid(y, m, MinuteMs, rest);
    Euclid(t, d * 1440 + h * 60 + m, MinuteMs, rest);
  }
}
