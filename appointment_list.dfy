/** The appointment list screen: the entries it shows for a day and a
    doctor, how they change after a reschedule or a cancel, and the
    half-hour slot grid of its reschedule dialog. Entries carry the string
    ids of the screen's own record shape. */
module AppointmentList {
  import opened Wrappers
  import opened Records
  import opened Seqs
  import opened Text
  import opened UtcTime
  import opened FrontendTime

  datatype Entry = Entry(uid: string, doctorId: string, patientId: string, datetime: int, status: Status)

  /** What the day listing request answered: an array of entries, or any
      other JSON value. */
  datatype Payload = Entries(entries: seq<Entry>) | NotAnArray

  /** `selectedDoctor ? appointments.filter(apt => apt.doctorId === selectedDoctor) : appointments`
      on the array the request answered (any other value becomes []). */
  function Visible(data: Payload, selectedDoctor: Option<string>): (r: seq<Entry>)
    ensures data.NotAnArray? ==> r == []
    ensures data.Entries? && (selectedDoctor.None? || selectedDoctor.value == "") ==> r == data.entries
    ensures data.Entries? && selectedDoctor.Some? && selectedDoctor.value != "" ==>
      && (forall e :: e in r <==> e in data.entries && e.doctorId == selectedDoctor.value)
      && (forall e :: multiset(r)[e] == if e.doctorId == selectedDoctor.value then multiset(data.entries)[e] else 0)
      && Subsequence(r, data.entries)
  {
    var appointmentsArray := if data.Entries? then data.entries else [];
    if selectedDoctor.Some? && selectedDoctor.value != "" then
      Filter(appointmentsArray, (e: Entry) => e.doctorId == selectedDoctor.value)
    else appointmentsArray
  }

  /** The list after a reschedule: `prev.map(apt => apt._id === uid ? {...apt,
      datetime, status: "SCHEDULED"} : apt)`. */
  function Rescheduled(prev: seq<Entry>, uid: string, datetime: int): (r: seq<Entry>)
    ensures |r| == |prev|
    ensures forall i :: 0 <= i < |prev| && prev[i].uid != uid ==> r[i] == prev[i]
    ensures forall i :: 0 <= i < |prev| && prev[i].uid == uid ==>
      r[i] == prev[i].(datetime := datetime, status := Scheduled)
  {
    if prev == [] then []
    else
      var apt := prev[0];
      [if apt.uid == uid then apt.(datetime := datetime, status := Scheduled) else apt]
        + Rescheduled(prev[1..], uid, datetime)
  }

  /** Rescheduling twice to the same time is the same as once. */
  lemma {:induction false} RescheduledIdempotent(prev: seq<Entry>, uid: string, datetime: int)
    ensures Rescheduled(Rescheduled(prev, uid, datetime), uid, datetime) == Rescheduled(prev, uid, datetime)
  {
    if prev != [] {
      RescheduledIdempotent(prev[1..], uid, datetime);
      assert Rescheduled(prev, uid, datetime)[1..] == Rescheduled(prev[1..], uid, datetime);
    }
  }

  /** The list after a cancel: `prev.filter(apt => apt._id !== uid)`. */
  function WithoutCancelled(prev: seq<Entry>, uid: string): (r: seq<Entry>)
    ensures forall e :: e in r <==> e in prev && e.uid != uid
    ensures Subsequence(r, prev)
    ensures forall e: Entry :: e.uid != uid ==> multiset(r)[e] == multiset(prev)[e]
  {
    Filter(prev, (e: Entry) => e.uid != uid)
  }

  datatype TimeSlot = TimeSlot(time: string, isAvailable: bool)

  /** The k-th half hour of the dialog's grid, counted from 09:00. */
  function GridSlot(k: nat): TimeSlot {
    TimeSlot(Clock(9 + k / 2, 30 * (k % 2)), true)
  }

  /** The grid generateTimeSlots produces for any date: 09:00, 09:30, ...,
      16:30, all available. */
  function HalfHourGrid(): (g: seq<TimeSlot>)
    ensures |g| == 16
  {
    seq(16, k requires 0 <= k < 16 => GridSlot(k))
  }

  /** The grid has sixteen available slots, from 09:00 to 16:30, each thirty
      minutes after the one before. */
  lemma HalfHourGridShape()
    ensures forall k :: 0 <= k < 16 ==> HalfHourGrid()[k].isAvailable
    ensures forall k :: 0 <= k < 16 ==>
      ParseClock(HalfHourGrid()[k].time) == (Some(9 + k / 2), Some(30 * (k % 2)))
    ensures forall k :: 0 <= k < 16 ==>
      (9 + k / 2) * 60 + 30 * (k % 2) == 540 + 30 * k && 9 <= 9 + k / 2 < 17
  {
    forall k | 0 <= k < 16
      ensures ParseClock(HalfHourGrid()[k].time) == (Some(9 + k / 2), Some(30 * (k % 2)))
    {
      GridSlotParses(k);
    }
  }

  lemma GridSlotParses(k: nat)
    ensures ParseClock(GridSlot(k).time) == (Some(9 + k / 2), Some(30 * (k % 2)))
  {
    ClockRoundTrip(9 + k / 2, 30 * (k % 2));
  }

  /** The instant `setHours(9, 0, 0)` plus k half hours: the milliseconds of
      date are kept. */
  function HalfHour(date: int, k: int): int {
    Midnight(date) + 9 * HourMs + k * 30 * MinuteMs + date % SecondMs
  }

  lemma HalfHourFields(date: int, k: int)
    requires 0 <= k <= 16
    ensures Hours(HalfHour(date, k)) == 9 + k / 2
    ensures Minutes(HalfHour(date, k)) == 30 * (k % 2)
  {
    var t := HalfHour(date, k);
    assert t == DayNumber(date) * DayMs + (9 + k / 2) * HourMs + (30 * (k % 2)) * MinuteMs + date % SecondMs;
    FieldsOf(DayNumber(date), 9 + k / 2, 30 * (k % 2), date % SecondMs);
  }

  /** The slot pushed at the k-th step is the k-th slot of the grid. */
  lemma PushedSlot(date: int, k: int)
    requires 0 <= k < 16
    ensures TimeSlot(HourMinute(HalfHour(date, k)), true) == GridSlot(k)
  {
    HalfHourFields(date, k);
  }

  /** generateTimeSlots: from 09:00 of date's day, one available slot every
      thirty minutes while the hour is before 17. */
  method GenerateTimeSlots(date: int) returns (slots: seq<TimeSlot>)
    ensures slots == HalfHourGrid()
  {
    slots := [];
    var startTime := SetHms(date, 9, 0, 0, date % SecondMs);
    ghost var k := 0;
    HalfHourFields(date, 0);
    while Hours(startTime) < 17
      invariant 0 <= k <= 16
      invariant startTime == HalfHour(date, k)
      invariant Hours(startTime) == 9 + k / 2
      invariant slots == HalfHourGrid()[..k]
      decreases 16 - k
    {
      PushedSlot(date, k);
      PrefixStep(HalfHourGrid(), k);
      slots := slots + [TimeSlot(HourMinute(startTime), true)];
      startTime := startTime + 30 * MinuteMs;
      k := k + 1;
      HalfHourFields(date, k);
    }
    assert HalfHourGrid()[..16] == HalfHourGrid();
  }

  lemma PrefixStep<T>(g: seq<T>, k: int)
    requires 0 <= k < |g|
    ensures g[..k + 1] == g[..k] + [g[k]]
  {
  }

  /** The reschedule dialog keeps a slot when it is available or shows the
      appointment's current "HH:mm"; a slot text that does not parse keeps
      no slot. */
  predicate KeptInDialog(slot: TimeSlot, newDate: int, current: int) {
    slot.isAvailable
    || (var t := AtClockKeepingSeconds(newDate, slot.time);
        t.Some? && HourMinute(t.value) == HourMinute(current))
  }

  function DialogSlots(slots: seq<TimeSlot>, newDate: int, current: int): (r: seq<TimeSlot>)
    ensures forall s :: s in r <==> s in slots && KeptInDialog(s, newDate, current)
    ensures forall s :: multiset(r)[s] == if KeptInDialog(s, newDate, current) then multiset(slots)[s] else 0
    ensures Subsequence(r, slots)
  {
    Filter(slots, (s: TimeSlot) => KeptInDialog(s, newDate, current))
  }

  /** Every generated slot is available, so the dialog offers the whole
      grid whatever the appointment's current time. */
  lemma DialogKeepsWholeGrid(newDate: int, current: int)
    ensures DialogSlots(HalfHourGrid(), newDate, current) == HalfHourGrid()
  {
    FilterAll(HalfHourGrid(), (s: TimeSlot) => KeptInDialog(s, newDate, current));
  }

  lemma {:induction false} FilterAll<T(!new)>(s: seq<T>, p: T -> bool)
    requires forall x :: x in s ==> p(x)
    ensures Filter(s, p) == s
  {
    if s != [] {
      assert forall x :: x in s[1..] ==> x in s;
      FilterAll(s[1..], p);
      assert [s[0]] + s[1..] == s;
    }
  }

  /** handleConfirmReschedule: nothing happens without a chosen time;
      otherwise the new date at the chosen hour and minute. */
  function ConfirmedDateTime(newDate: int, newTime: string): (r: Option<int>)
    ensures r.Some? ==> newTime != "" && r.value % MinuteMs == newDate % MinuteMs
  {
    if newTime == "" then None else AtClockKeepingSeconds(newDate, newTime)
  }

  /** Confirming a grid slot moves the appointment to that hour and minute
      of the chosen day; its seconds and milliseconds stay those of the
      picked date. */
  lemma ConfirmGridSlot(newDate: int, k: nat)
    requires k < 16
    ensures var t := ConfirmedDateTime(newDate, HalfHourGrid()[k].time);
      && t.Some?
      && DayNumber(t.value) == DayNumber(newDate)
      && Hours(t.value) == 9 + k / 2 && Minutes(t.value) == 30 * (k % 2)
      && t.value % MinuteMs == newDate % MinuteMs
  {
    var h, m := 9 + k / 2, 30 * (k % 2);
    var time := HalfHourGrid()[k].time;
    assert time == GridSlot(k).time;
    GridSlotParses(k);
    assert time != "" by {
      assert |Clock(h, m)| == 5;
    }
    AtClockKeepingSecondsParses(newDate, time, h, m);
    SetHourMinuteFields(newDate, h, m);
  }
}
