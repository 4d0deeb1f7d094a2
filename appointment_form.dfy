/** The booking form: the "HH:mm" texts it shows for the backend's free
    slots, the instant it submits, its field rules, the phone length that
    starts a patient lookup, and the doctor and date handlers that clear
    the chosen time and request slots. */
module AppointmentForm {
  import opened Wrappers
  import opened Text
  import opened UtcTime
  import opened FrontendTime
  import Records
  import Slots = DoctorRepository

  /** loadAvailableSlots: each free slot instant as zero-padded UTC "HH:mm". */
  function FormatSlots(slots: seq<int>): (r: seq<string>)
    ensures |r| == |slots|
    ensures forall i :: 0 <= i < |slots| ==> r[i] == HourMinute(slots[i])
  {
    seq(|slots|, i requires 0 <= i < |slots| => HourMinute(slots[i]))
  }

  /** Every text the form shows for a backend slot is a whole hour from
      "08:00" to "16:00", and submitting it on the requested day sends back
      exactly that slot's instant. */
  lemma BackendSlotTexts(rows: seq<Records.Appointment>, doctorId: nat, date: int, i: int)
    requires 0 <= i < |Slots.AvailableSlots(rows, doctorId, date)|
    ensures var slots := Slots.AvailableSlots(rows, doctorId, date);
      var text := FormatSlots(slots)[i];
      && (exists h :: 8 <= h <= 16 && text == Clock(h, 0))
      && AtClock(date, text) == Some(slots[i])
  {
    var slots := Slots.AvailableSlots(rows, doctorId, date);
    assert slots[i] in slots;
    Slots.SlotsInWorkingDay(rows, doctorId, date);
    SlotText(date, slots[i]);
  }

  lemma SlotText(date: int, x: int)
    requires exists k :: 0 <= k < 9 && x == Slots.GridHour(date, k)
    ensures exists h :: 8 <= h <= 16 && HourMinute(x) == Clock(h, 0)
    ensures AtClock(date, HourMinute(x)) == Some(x)
  {
    var k :| 0 <= k < 9 && x == Slots.GridHour(date, k);
    GridHourText(date, k);
    assert 8 <= 8 + k <= 16 && HourMinute(x) == Clock(8 + k, 0);
  }

  /** The k-th hour of the working day shows as "HH:00" and is set back
      from that text exactly. */
  lemma GridHourText(date: int, k: int)
    requires 0 <= k < 9
    ensures HourMinute(Slots.GridHour(date, k)) == Clock(8 + k, 0)
    ensures AtClock(date, HourMinute(Slots.GridHour(date, k))) == Some(Slots.GridHour(date, k))
  {
    var x := Slots.GridHour(date, k);
    Slots.GridHourFields(date, k);
    assert x % MinuteMs == 0 by {
      assert x == (x / HourMs) * 60 * MinuteMs;
    }
    assert Minutes(x) == 0;
    AtClockOfFormatted(date, x);
  }

  /** The lookup by phone starts once the phone has ten characters. */
  predicate ShouldSearchPatient(phone: string) {
    |phone| >= 10
  }

  /** The form's values. Text fields start as ""; the selects and dates
      start unset. */
  datatype FormData = FormData(
    phone: string, email: string, firstName: string, lastName: string,
    dateOfBirth: Option<int>, doctorId: Option<string>, appointmentDate: Option<int>, appointmentTime: string)

  /** The messages of the rules a form breaks, in the schema's order. The
      email format check belongs to a library and enters as emailValid. */
  function SchemaIssues(f: FormData, emailValid: bool): (issues: seq<string>)
    ensures issues == [] <==>
      && |f.phone| >= 10 && emailValid && |f.firstName| >= 2 && |f.lastName| >= 2
      && f.dateOfBirth.Some? && f.doctorId.Some? && f.appointmentDate.Some?
  {
    (if |f.phone| < 10 then ["Phone number must be at least 10 digits"] else [])
    + (if !emailValid then ["Invalid email address"] else [])
    + (if |f.firstName| < 2 then ["First name must be at least 2 characters"] else [])
    + (if |f.lastName| < 2 then ["Last name must be at least 2 characters"] else [])
    + (if f.dateOfBirth.None? then ["Date of birth is required"] else [])
    + (if f.doctorId.None? then ["Please select a doctor"] else [])
    + (if f.appointmentDate.None? then ["Appointment date is required"] else [])
  }

  /** A phone the schema accepts always starts the lookup. */
  lemma AcceptedPhoneStartsLookup(f: FormData, emailValid: bool)
    requires SchemaIssues(f, emailValid) == []
    ensures ShouldSearchPatient(f.phone)
  {
  }

  /** onSubmit: the appointment date at the chosen "HH:mm", seconds and
      milliseconds zero; None stands for the Invalid Date an unparsable time
      gives. */
  function SubmittedDateTime(f: FormData): (r: Option<int>)
    requires f.appointmentDate.Some?
    ensures f.appointmentTime == "" ==> r.None?
    ensures r.Some? ==> r.value % MinuteMs == 0
  {
    EmptyTimeInvalid(f.appointmentDate.value);
    AtClock(f.appointmentDate.value, f.appointmentTime)
  }

  /** A chosen slot text is submitted as that hour and minute of the chosen
      day, with seconds and milliseconds zero. */
  lemma SubmitsChosenTime(f: FormData, h: nat, m: nat)
    requires f.appointmentDate.Some? && f.appointmentTime == Clock(h, m)
    requires h < 24 && m < 60
    ensures SubmittedDateTime(f).Some?
    ensures var t := SubmittedDateTime(f).value;
      && DayNumber(t) == DayNumber(f.appointmentDate.value)
      && Hours(t) == h && Minutes(t) == m && t % MinuteMs == 0
  {
    AtClockOfSlot(f.appointmentDate.value, h, m);
  }

  /** The schema sets no rule on the time text, so a form whose time was
      cleared (or never chosen) passes it and submits an Invalid Date. */
  lemma ClearedTimePassesSchema(f: FormData, emailValid: bool)
    requires |f.phone| >= 10 && emailValid && |f.firstName| >= 2 && |f.lastName| >= 2
    requires f.dateOfBirth.Some? && f.doctorId.Some? && f.appointmentDate.Some?
    requires f.appointmentTime == ""
    ensures SchemaIssues(f, emailValid) == []
    ensures SubmittedDateTime(f) == None
  {
    EmptyTimeInvalid(f.appointmentDate.value);
  }

  /** A request to load the free slots of a doctor on a date. */
  datatype SlotRequest = SlotRequest(doctorId: string, date: int)

  /** The fields the doctor and date handlers read and overwrite, and the
      slot requests they have issued so far. */
  class BookingForm {
    var doctorId: Option<string>
    var appointmentDate: Option<int>
    var appointmentTime: string
    var requests: seq<SlotRequest>

    constructor ()
      ensures doctorId == None && appointmentDate == None && appointmentTime == "" && requests == []
    {
      doctorId, appointmentDate, appointmentTime, requests := None, None, "", [];
    }

    /** handleDoctorSelect: loads the slots when a date is already set,
        then stores the doctor and clears the time. */
    method HandleDoctorSelect(id: string)
      modifies this
      ensures doctorId == Some(id) && appointmentTime == ""
      ensures appointmentDate == old(appointmentDate)
      ensures requests == old(requests) + if old(appointmentDate).Some? then [SlotRequest(id, old(appointmentDate).value)] else []
    {
      var date := appointmentDate;
      if date.Some? {
        requests := requests + [SlotRequest(id, date.value)];
      }
      doctorId := Some(id);
      appointmentTime := "";
    }

    /** handleDateSelect: ignores an unset date; otherwise loads the slots
        when a doctor is set, then stores the date and clears the time. */
    method HandleDateSelect(date: Option<int>)
      modifies this
      ensures date.None? ==>
        doctorId == old(doctorId) && appointmentDate == old(appointmentDate)
        && appointmentTime == old(appointmentTime) && requests == old(requests)
      ensures date.Some? ==>
        && appointmentDate == date && appointmentTime == "" && doctorId == old(doctorId)
        && requests == old(requests) + if doctorId.Some? && doctorId.value != "" then [SlotRequest(doctorId.value, date.value)] else []
    {
      if date.Some? {
        var id := doctorId;
        if id.Some? && id.value != "" {
          requests := requests + [SlotRequest(id.value, date.value)];
        }
        appointmentDate := date;
        appointmentTime := "";
      }
    }
  }

  /** Whatever order the doctor and the date are chosen in, the slots are
      requested only once both are set, and for the pair chosen. */
  method ChooseDoctorThenDate(form: BookingForm, id: string, date: int)
    requires form.appointmentDate.None?
    modifies form
    ensures form.requests == old(form.requests) + (if id != "" then [SlotRequest(id, date)] else [])
    ensures form.doctorId == Some(id) && form.appointmentDate == Some(date) && form.appointmentTime == ""
  {
    form.HandleDoctorSelect(id);
    form.HandleDateSelect(Some(date));
  }
}
