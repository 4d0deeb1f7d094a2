/** Time handling shared by the booking form and the appointment list: the
    "HH:mm" text of an instant, setting a date's clock from such a text, and
    the rules that disable days in the date pickers. The browser's local
    clock is read as UTC. */
module FrontendTime {
  import opened Wrappers
  import opened Text
  import opened UtcTime
  import opened CivilDate

  /** `format(t, "HH:mm")`, and equally the `getUTCHours()` and
      `getUTCMinutes()` text padded with `padStart(2, "0")`. */
  function HourMinute(t: int): (s: string)
    ensures |s| == 5 && s[2] == ':'
    ensures ParseClock(s) == (Some(Hours(t)), Some(Minutes(t)))
  {
    ClockRoundTrip(Hours(t), Minutes(t));
    Clock(Hours(t), Minutes(t))
  }

  /** `time.split(":")`, then `d.setHours(parseInt(hours), parseInt(minutes), 0, 0)`
      on a copy of date; None is the Invalid Date a NaN field produces. */
  function AtClock(date: int, time: string): (r: Option<int>)
    ensures r.Some? <==> ParseClock(time).0.Some? && ParseClock(time).1.Some?
    ensures r.Some? ==> r.value % MinuteMs == 0
  {
    var (h, m) := ParseClock(time);
    if h.Some? && m.Some? then
      var t := SetHms(date, h.value, m.value, 0, 0);
      Euclid(t, DayNumber(date) * 1440 + h.value * 60 + m.value, MinuteMs, 0);
      Some(t)
    else None
  }

  /** The same with `setHours(parseInt(hours), parseInt(minutes))`: the
      seconds and milliseconds of date are kept. */
  function AtClockKeepingSeconds(date: int, time: string): (r: Option<int>)
    ensures r.Some? <==> ParseClock(time).0.Some? && ParseClock(time).1.Some?
    ensures r.Some? ==> r.value % MinuteMs == date % MinuteMs
  {
    var (h, m) := ParseClock(time);
    if h.Some? && m.Some? then
      var t := SetHourMinute(date, h.value, m.value);
      Euclid(t, DayNumber(date) * 1440 + h.value * 60 + m.value, MinuteMs, date % MinuteMs);
      Some(t)
    else None
  }

  lemma AtClockParses(date: int, time: string, h: int, m: int)
    requires ParseClock(time) == (Some(h), Some(m))
    ensures AtClock(date, time) == Some(SetHms(date, h, m, 0, 0))
  {
  }

  /** Setting hour and minute, with seconds and milliseconds zero, on date's
      day. */
  lemma SetHmsFields(date: int, h: int, m: int)
    requires 0 <= h < 24 && 0 <= m < 60
    ensures var t := SetHms(date, h, m, 0, 0);
      DayNumber(t) == DayNumber(date) && Hours(t) == h && Minutes(t) == m && t % MinuteMs == 0
  {
    var d := DayNumber(date);
    assert SetHms(date, h, m, 0, 0) == d * DayMs + h * HourMs + m * MinuteMs + 0;
    FieldsOf(d, h, m, 0);
  }

  lemma AtClockKeepingSecondsParses(date: int, time: string, h: int, m: int)
    requires ParseClock(time) == (Some(h), Some(m))
    ensures AtClockKeepingSeconds(date, time) == Some(SetHourMinute(date, h, m))
  {
  }

  /** Setting hour and minute on date's day keeps its seconds and
      milliseconds. */
  lemma SetHourMinuteFields(date: int, h: int, m: int)
    requires 0 <= h < 24 && 0 <= m < 60
    ensures var t := SetHourMinute(date, h, m);
      DayNumber(t) == DayNumber(date) && Hours(t) == h && Minutes(t) == m && t % MinuteMs == date % MinuteMs
  {
    var d := DayNumber(date);
    assert SetHourMinute(date, h, m) == d * DayMs + h * HourMs + m * MinuteMs + date % MinuteMs;
    FieldsOf(d, h, m, date % MinuteMs);
  }

  /** A chosen "HH:mm" lands on date's day at that hour and minute, with
      seconds and milliseconds zero. */
  lemma AtClockOfSlot(date: int, h: int, m: int)
    requires 0 <= h < 24 && 0 <= m < 60
    ensures AtClock(date, Clock(h, m)).Some?
    ensures var t := AtClock(date, Clock(h, m)).value;
      DayNumber(t) == DayNumber(date) && Hours(t) == h && Minutes(t) == m && t % MinuteMs == 0
  {
    ClockRoundTrip(h, m);
    AtClockParses(date, Clock(h, m), h, m);
    SetHmsFields(date, h, m);
  }

  /** An instant rebuilt from its own day, hour and minute. */
  lemma WholeMinute(t: int)
    requires t % MinuteMs == 0
    ensures SetHms(t, Hours(t), Minutes(t), 0, 0) == t
  {
    var x := t % DayMs;
    var y := x % HourMs;
    assert x == Hours(t) * HourMs + y;
    assert t == (DayNumber(t) * 24 + Hours(t)) * HourMs + y;
    Euclid(t, DayNumber(t) * 24 + Hours(t), HourMs, y);
    assert y == Minutes(t) * MinuteMs + y % MinuteMs;
    assert t == ((DayNumber(t) * 24 + Hours(t)) * 60 + Minutes(t)) * MinuteMs + y % MinuteMs;
    Euclid(t, (DayNumber(t) * 24 + Hours(t)) * 60 + Minutes(t), MinuteMs, y % MinuteMs);
  }

  /** Formatting a whole-minute instant and setting a date of the same day
      to that text gives the instant back. */
  lemma AtClockOfFormatted(date: int, t: int)
    requires DayNumber(t) == DayNumber(date) && t % MinuteMs == 0
    ensures AtClock(date, HourMinute(t)) == Some(t)
  {
    var text := HourMinute(t);
    AtClockParses(date, text, Hours(t), Minutes(t));
    WholeMinute(t);
    assert Midnight(t) == Midnight(date);
    assert SetHms(date, Hours(t), Minutes(t), 0, 0) == SetHms(t, Hours(t), Minutes(t), 0, 0);
  }

  /** An empty time text parses to NaN and makes an Invalid Date. */
  lemma EmptyTimeInvalid(date: int)
    ensures AtClock(date, "") == None
  {
    assert Split("", ':') == [""];
  }

  /** The appointment pickers: days before now, Sundays and Saturdays are
      disabled. */
  predicate BookingDateDisabled(date: int, now: int) {
    date < now || Weekday(date) == 0 || Weekday(date) == 6
  }

  /** UTC midnight of 1900-01-01. */
  const Year1900: int := -2208988800000

  /** The date-of-birth picker: days after now and before 1900-01-01 are
      disabled. */
  predicate DateOfBirthDisabled(date: int, now: int) {
    date > now || date < Year1900
  }

  lemma Year1900IsNewYear()
    ensures DayNumberOf(Date(1900, 1, 1)) * DayMs == Year1900
  {
  }

  /** The pickers are handed the midnight of the day shown. A day can be
      chosen exactly when it is Monday to Friday and either lies after the
      current day or now is that very midnight: once a day's midnight has
      passed, the day itself can no longer be booked. */
  lemma BookableDay(day: int, now: int)
    ensures !BookingDateDisabled(Midnight(day), now) <==>
      (DayNumber(now) < DayNumber(day) || now == Midnight(day)) && 1 <= Weekday(day) <= 5
  {
    DayAndTime(DayNumber(day), 0);
    assert Weekday(Midnight(day)) == Weekday(day);
  }

  /** Monday 2024-11-18 can be booked from the evening before (Sunday 23:00
      UTC) but not once its own midnight has passed; Saturday 2024-11-16 and
      Sunday 2024-11-17 never. */
  lemma BookingWeekExample()
    ensures DayNumberOf(Date(2024, 11, 18)) == 20045
    ensures !BookingDateDisabled(20045 * DayMs, 20045 * DayMs - HourMs)
    ensures BookingDateDisabled(20045 * DayMs, 20045 * DayMs + HourMs)
    ensures BookingDateDisabled(20043 * DayMs, 0) && BookingDateDisabled(20044 * DayMs, 0)
  {
    DayAndTime(20045, 0);
    DayAndTime(20043, 0);
    DayAndTime(20044, 0);
  }

  /** A birth date the picker accepts is no later than now and falls in
      1900 or after. */
  lemma BirthDateInRange(date: int, now: int)
    requires !DateOfBirthDisabled(date, now)
    ensures date <= now && DateOfDay(DayNumber(date)).year >= 1900
  {
    var d := DateOfDay(DayNumber(date));
    assert DayNumber(date) >= -25567 by {
      DayAndTime(-25567, 0);
    }
    if d.year < 1900 {
      if d.month < 12 {
        MonthsAscend(d.year, d.month + 1, 13);
      }
      NextYear(d.year);
      YearsAscend(d.year + 1, 1900);
      assert false;
    }
  }
}
