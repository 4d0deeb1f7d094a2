/** The appointment endpoints: booking (check availability, then insert a
    SCHEDULED record), rescheduling and cancelling (plain field overwrites),
    and the day and full listings. Every store failure becomes a 500. */
module AppointmentController {
  import opened Wrappers
  import opened Records
  import opened Storage
  import opened Http
  import opened UtcTime
  import opened Seqs
  import Repo = AppointmentRepository

  /** The body of a day listing: the query text, the count, the records. */
  datatype DayListing = DayListing(date: string, total: nat, appointments: seq<Appointment>)

  predicate SameDoctorScheduled(a: Appointment, b: Appointment) {
    a.status == Scheduled && b.status == Scheduled && a.doctorId == b.doctorId
  }

  /** No doctor holds two SCHEDULED appointments starting at one instant. */
  predicate NoDoubleBooking(rows: seq<Appointment>) {
    forall i, j :: 0 <= i < j < |rows| && SameDoctorScheduled(rows[i], rows[j]) ==> rows[i].datetime != rows[j].datetime
  }

  /** A booking that passed the availability check never double-books. */
  lemma CreateKeepsNoDoubleBooking(rows: seq<Appointment>, a: Appointment)
    requires NoDoubleBooking(rows)
    requires Repo.CheckDoctorAvailability(rows, a.doctorId, a.datetime)
    ensures NoDoubleBooking(rows + [a])
  {
    var r := rows + [a];
    forall i | 0 <= i < |rows| && rows[i].status == Scheduled && rows[i].doctorId == a.doctorId
      ensures rows[i].datetime != a.datetime
    {
      assert rows[i] in rows;
    }
    assert forall i :: 0 <= i < |rows| ==> r[i] == rows[i];
  }

  /** Cancelling never double-books. */
  lemma CancelKeepsNoDoubleBooking(rows: seq<Appointment>, id: nat)
    requires NoDoubleBooking(rows)
    ensures NoDoubleBooking(Repo.UpdateRows(rows, id, Repo.Patch(None, Some(Cancelled))))
  {
    var p := Repo.Patch(None, Some(Cancelled));
    var r := Repo.UpdateRows(rows, id, p);
    forall i, j | 0 <= i < j < |r| && SameDoctorScheduled(r[i], r[j])
      ensures r[i].datetime != r[j].datetime
    {
      Repo.UpdateTouchesOnlyTarget(rows, id, p, i);
      Repo.UpdateTouchesOnlyTarget(rows, id, p, j);
    }
  }

  /** Rescheduling runs no check: moving the 10:00 booking of a doctor onto
      the 09:00 one leaves two SCHEDULED appointments at 09:00. */
  lemma RescheduleCanDoubleBook()
    ensures var nine := 1731920400000;
      var rows := [Appointment(1, 1, 1, nine, Scheduled), Appointment(2, 1, 2, nine + HourMs, Scheduled)];
      NoDoubleBooking(rows) && !NoDoubleBooking(Repo.UpdateRows(rows, 2, Repo.Patch(Some(nine), None)))
  {
    var nine := 1731920400000;
    var rows := [Appointment(1, 1, 1, nine, Scheduled), Appointment(2, 1, 2, nine + HourMs, Scheduled)];
    var r := Repo.UpdateRows(rows, 2, Repo.Patch(Some(nine), None));
    Repo.UpdateTouchesOnlyTarget(rows, 2, Repo.Patch(Some(nine), None), 0);
    Repo.UpdateTouchesOnlyTarget(rows, 2, Repo.Patch(Some(nine), None), 1);
    assert r[0].datetime == r[1].datetime;
  }

  class Controller {
    const db: Db

    ghost predicate Valid()
      reads this, db
    {
      db.Valid()
    }

    constructor (db: Db)
      requires db.Valid()
      ensures this.db == db && Valid()
    {
      this.db := db;
    }

    /** create: books the doctor at datetime for the patient when the doctor
        is available; an Invalid Date or a missing doctor or patient is a
        store failure. */
    method Create(doctorId: nat, patientId: nat, datetime: Option<int>) returns (r: Reply<Appointment>)
      requires Valid()
      modifies db`appointments, db`nextAppointmentId
      ensures Valid()
      ensures datetime.None? ==> r == Error(ServerError, "Failed to create appointment", NoDetail)
      ensures datetime.Some? && !Repo.CheckDoctorAvailability(old(db.appointments), doctorId, datetime.value) ==>
        r == Error(BadRequest, "Doctor is not available at this time", NoDetail)
      ensures (datetime.Some? && Repo.CheckDoctorAvailability(old(db.appointments), doctorId, datetime.value)
               && !old(Repo.HasDoctor(db, doctorId) && Repo.HasPatient(db, patientId))) ==>
        r == Error(ServerError, "Failed to create appointment", NoDetail)
      ensures r.status == Created <==>
        && datetime.Some?
        && Repo.CheckDoctorAvailability(old(db.appointments), doctorId, datetime.value)
        && old(Repo.HasDoctor(db, doctorId) && Repo.HasPatient(db, patientId))
      ensures r.status == Created ==>
        && r == Json(Created, Appointment(old(db.nextAppointmentId), doctorId, patientId, datetime.value, Scheduled))
        && db.appointments == old(db.appointments) + [r.body]
        && forall a :: a in old(db.appointments) ==> !Repo.Blocks(a, doctorId, datetime.value)
      ensures r.status != Created ==> r.Error? && db.appointments == old(db.appointments)
      ensures r.status == Created || r.status == BadRequest || r.status == ServerError
      ensures old(NoDoubleBooking(db.appointments)) ==> NoDoubleBooking(db.appointments)
    {
      if datetime.None? {
        return Error(ServerError, "Failed to create appointment", NoDetail);
      }
      var isAvailable := Repo.CheckDoctorAvailability(db.appointments, doctorId, datetime.value);
      if !isAvailable {
        return Error(BadRequest, "Doctor is not available at this time", NoDetail);
      }
      ghost var before := db.appointments;
      var appointment := Repo.Create(db, doctorId, patientId, datetime.value, Scheduled);
      if NoDoubleBooking(before) && appointment.Success? {
        CreateKeepsNoDoubleBooking(before, appointment.value);
      }
      if appointment.Failure? {
        return Error(ServerError, "Failed to create appointment", NoDetail);
      }
      r := Json(Created, appointment.value);
    }

    /** reschedule: overwrites the datetime of appointment id, whatever the
        doctor's other bookings; the status stays as it was. */
    method Reschedule(id: nat, datetime: Option<int>) returns (r: Reply<Appointment>)
      requires Valid()
      modifies db`appointments
      ensures Valid()
      ensures r.Json? <==> datetime.Some? && Repo.FindById(old(db.appointments), id).Some?
      ensures r.Json? ==>
        var before := Repo.FindById(old(db.appointments), id).value;
        && r.status == Ok
        && r.body == before.(datetime := datetime.value)
        && db.appointments == Repo.UpdateRows(old(db.appointments), id, Repo.Patch(datetime, None))
      ensures r.Error? ==>
        r == Error(ServerError, "Failed to reschedule appointment", NoDetail) && db.appointments == old(db.appointments)
    {
      if datetime.None? {
        return Error(ServerError, "Failed to reschedule appointment", NoDetail);
      }
      var appointment := Repo.Update(db, id, Repo.Patch(datetime, None));
      if appointment.Failure? {
        return Error(ServerError, "Failed to reschedule appointment", NoDetail);
      }
      r := Json(Ok, appointment.value);
    }

    /** cancel: sets the status of appointment id to CANCELLED, whatever it
        was before; nothing else changes. */
    method Cancel(id: nat) returns (r: Reply<Appointment>)
      requires Valid()
      modifies db`appointments
      ensures Valid()
      ensures r.Json? <==> Repo.FindById(old(db.appointments), id).Some?
      ensures r.Json? ==>
        var before := Repo.FindById(old(db.appointments), id).value;
        && r.status == Ok
        && r.body == before.(status := Cancelled)
        && db.appointments == Repo.UpdateRows(old(db.appointments), id, Repo.Patch(None, Some(Cancelled)))
      ensures r.Error? ==>
        r == Error(ServerError, "Failed to cancel appointment", NoDetail) && db.appointments == old(db.appointments)
      ensures old(NoDoubleBooking(db.appointments)) ==> NoDoubleBooking(db.appointments)
    {
      if NoDoubleBooking(db.appointments) {
        CancelKeepsNoDoubleBooking(db.appointments, id);
      }
      var appointment := Repo.Update(db, id, Repo.Patch(None, Some(Cancelled)));
      if appointment.Failure? {
        return Error(ServerError, "Failed to cancel appointment", NoDetail);
      }
      r := Json(Ok, appointment.value);
    }

    /** getByDate: a missing or empty date is a 400; an unparsable one makes
        the store query fail; otherwise the day's appointments and their
        count. */
    method GetByDate(date: Param<Option<int>>) returns (r: Reply<DayListing>)
      requires Valid()
      ensures Falsy(date) ==> r == Error(BadRequest, "Valid date is required", NoDetail)
      ensures !Falsy(date) && date.value.None? ==> r == Error(ServerError, "Failed to fetch appointments", NoDetail)
      ensures r.Json? <==> !Falsy(date) && date.value.Some?
      ensures r.Json? ==>
        && r.status == Ok
        && r.body.date == date.text
        && r.body.appointments == Repo.FindByDate(db.appointments, date.value.value)
        && r.body.total == |r.body.appointments|
    {
      if Falsy(date) {
        return Error(BadRequest, "Valid date is required", NoDetail);
      }
      if date.value.None? {
        return Error(ServerError, "Failed to fetch appointments", NoDetail);
      }
      var appointments := Repo.FindByDate(db.appointments, date.value.value);
      r := Json(Ok, DayListing(date.text, |appointments|, appointments));
    }

    /** getAll: every appointment, earliest first. */
    method GetAll() returns (r: Reply<seq<Appointment>>)
      requires Valid()
      ensures r.Json? && r.status == Ok
      ensures multiset(r.body) == multiset(db.appointments)
      ensures Sorted(r.body, Datetime, Ascending)
    {
      r := Json(Ok, Repo.FindAll(db.appointments));
    }
  }
}
