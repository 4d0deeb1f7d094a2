/** The appointment repository: the availability check, the date, patient
    and full listings, and create, update and delete on the appointment
    table. Queries are functions of a snapshot of the table. */
module AppointmentRepository {
  import opened Wrappers
  import opened Records
  import opened Storage
  import opened Seqs
  import opened UtcTime

  /** An appointment that makes the doctor unavailable at t: SCHEDULED, of
      that doctor, starting in the half-open hour [t, t + 1h). */
  predicate Blocks(a: Appointment, doctorId: nat, t: int) {
    a.doctorId == doctorId && t <= a.datetime < t + HourMs && a.status == Scheduled
  }

  /** checkDoctorAvailability: the doctor is available at t when the store
      holds no appointment that blocks t. The window runs forwards from t
      only. */
  function CheckDoctorAvailability(rows: seq<Appointment>, doctorId: nat, t: int): (available: bool)
    ensures available <==> forall a :: a in rows ==> !Blocks(a, doctorId, t)
  {
    var startTime := t;
    var endTime := t + HourMs;
    FindFirst(rows, (a: Appointment) =>
      a.doctorId == doctorId && startTime <= a.datetime < endTime && a.status == Scheduled).None?
  }

  /** A SCHEDULED appointment of the doctor starting exactly at t blocks t;
      one starting exactly at t + 1h does not. */
  lemma WindowEdges(rows: seq<Appointment>, a: Appointment, t: int)
    requires a.status == Scheduled
    ensures a.datetime == t && a in rows ==> !CheckDoctorAvailability(rows, a.doctorId, t)
    ensures a.datetime == t + HourMs ==>
      CheckDoctorAvailability(rows + [a], a.doctorId, t) == CheckDoctorAvailability(rows, a.doctorId, t)
  {
    if a.datetime == t + HourMs {
      assert forall x :: x in rows + [a] <==> x in rows || x == a;
    }
  }

  /** Adding an appointment that starts before t (even 1 ms before), at or
      after t + 1h, that is not SCHEDULED, or that belongs to another doctor
      never changes the answer. */
  lemma NonBlockingIgnored(rows: seq<Appointment>, a: Appointment, doctorId: nat, t: int)
    requires a.datetime < t || a.datetime >= t + HourMs || a.status != Scheduled || a.doctorId != doctorId
    ensures CheckDoctorAvailability(rows + [a], doctorId, t) == CheckDoctorAvailability(rows, doctorId, t)
  {
    assert forall x :: x in rows + [a] <==> x in rows || x == a;
  }

  /** The window is one-way: a booking that started 30 minutes before t still
      runs at t, yet it does not make the doctor unavailable. */
  lemma EarlierOverlapAdmitted(a: Appointment, t: int)
    requires a.status == Scheduled && a.datetime == t - 30 * MinuteMs
    ensures a.datetime < t < a.datetime + HourMs
    ensures CheckDoctorAvailability([a], a.doctorId, t)
  {
  }

  /** findByDate: every appointment, of any status, between UTC midnight of
      date's day and 23:59:59.999 of that day, ascending by datetime. */
  function FindByDate(rows: seq<Appointment>, date: int): (r: seq<Appointment>)
    ensures Sorted(r, Datetime, Ascending)
    ensures forall a :: multiset(r)[a] == if DayNumber(a.datetime) == DayNumber(date) then multiset(rows)[a] else 0
  {
    var startOfDay := SetHms(date, 0, 0, 0, 0);
    var endOfDay := SetHms(startOfDay, 23, 59, 59, 999);
    assert startOfDay == Midnight(date) && endOfDay == Midnight(date) + DayMs - 1 by {
      DayAndTime(DayNumber(date), 0);
    }
    var inDay := (a: Appointment) => startOfDay <= a.datetime <= endOfDay;
    var r := SortBy(Filter(rows, inDay), Datetime, Ascending);
    assert forall a :: inDay(a) <==> DayNumber(a.datetime) == DayNumber(date) by {
      forall a ensures inDay(a) <==> DayNumber(a.datetime) == DayNumber(date) {
        SameDay(a.datetime, date);
      }
    }
    r
  }

  /** x lies in date's UTC day exactly when they share a day number. */
  lemma SameDay(x: int, date: int)
    ensures Midnight(date) <= x <= Midnight(date) + DayMs - 1 <==> DayNumber(x) == DayNumber(date)
  {
    var d := DayNumber(date);
    if Midnight(date) <= x <= Midnight(date) + DayMs - 1 {
      DayAndTime(d, x - d * DayMs);
    } else {
      assert Midnight(x) <= x < Midnight(x) + DayMs;
    }
  }

  /** findByPatientId: that patient's appointments, latest first. */
  function FindByPatientId(rows: seq<Appointment>, patientId: nat): (r: seq<Appointment>)
    ensures Sorted(r, Datetime, Descending)
    ensures forall a :: multiset(r)[a] == if a.patientId == patientId then multiset(rows)[a] else 0
  {
    SortBy(Filter(rows, (a: Appointment) => a.patientId == patientId), Datetime, Descending)
  }

  /** findAll: every appointment, earliest first. */
  function FindAll(rows: seq<Appointment>): (r: seq<Appointment>)
    ensures Sorted(r, Datetime, Ascending)
    ensures multiset(r) == multiset(rows)
  {
    SortBy(rows, Datetime, Ascending)
  }

  /** The fields an update may supply; absent fields are left as they are. */
  datatype Patch = Patch(datetime: Option<int>, status: Option<Status>)

  function Patched(a: Appointment, p: Patch): (b: Appointment)
    ensures b.id == a.id && b.doctorId == a.doctorId && b.patientId == a.patientId
    ensures b.datetime == p.datetime.GetOr(a.datetime)
    ensures b.status == p.status.GetOr(a.status)
  {
    a.(datetime := p.datetime.GetOr(a.datetime), status := p.status.GetOr(a.status))
  }

  /** The table after `update({where: {id}, data})`. */
  function UpdateRows(rows: seq<Appointment>, id: nat, p: Patch): (r: seq<Appointment>)
    ensures |r| == |rows|
    ensures forall i :: 0 <= i < |rows| ==> r[i].id == rows[i].id
  {
    if rows == [] then []
    else [if rows[0].id == id then Patched(rows[0], p) else rows[0]] + UpdateRows(rows[1..], id, p)
  }

  /** update changes only the row with the given id, and of it only the
      supplied fields. */
  lemma {:induction false} UpdateTouchesOnlyTarget(rows: seq<Appointment>, id: nat, p: Patch, i: int)
    requires 0 <= i < |rows|
    ensures rows[i].id != id ==> UpdateRows(rows, id, p)[i] == rows[i]
    ensures rows[i].id == id ==> UpdateRows(rows, id, p)[i] == Patched(rows[i], p)
  {
    if i > 0 {
      UpdateTouchesOnlyTarget(rows[1..], id, p, i - 1);
    }
  }

  /** A row with the given id, if the table holds one (`findUnique`). */
  function FindById(rows: seq<Appointment>, id: nat): (r: Option<Appointment>)
    ensures r.Some? ==> r.value in rows && r.value.id == id
    ensures r.None? <==> forall a :: a in rows ==> a.id != id
  {
    FindFirst(rows, (a: Appointment) => a.id == id)
  }

  predicate HasDoctor(db: Db, doctorId: nat)
    reads db
  {
    exists d :: d in db.doctors && d.id == doctorId
  }

  predicate HasPatient(db: Db, patientId: nat)
    reads db
  {
    exists p :: p in db.patients && p.id == patientId
  }

  /** create: a new row with the next id, connected to an existing doctor and
      patient; the connect fails when either is missing. */
  method Create(db: Db, doctorId: nat, patientId: nat, datetime: int, status: Status)
    returns (r: Result<Appointment, StoreError>)
    requires db.Valid()
    modifies db`appointments, db`nextAppointmentId
    ensures db.Valid()
    ensures r.Failure? <==> !old(HasDoctor(db, doctorId) && HasPatient(db, patientId))
    ensures r.Failure? ==> r.error == RecordNotFound && db.appointments == old(db.appointments)
    ensures r.Success? ==>
      && r.value == Appointment(old(db.nextAppointmentId), doctorId, patientId, datetime, status)
      && db.appointments == old(db.appointments) + [r.value]
  {
    var doctor := FindFirst(db.doctors, (d: Doctor) => d.id == doctorId);
    var patient := FindFirst(db.patients, (p: Patient) => p.id == patientId);
    assert doctor.Some? <==> HasDoctor(db, doctorId);
    assert patient.Some? <==> HasPatient(db, patientId);
    if doctor.None? || patient.None? {
      return Failure(RecordNotFound);
    }
    var a := Appointment(db.nextAppointmentId, doctorId, patientId, datetime, status);
    AppendKeepsIds(db.appointments, a, AppointmentKey, db.nextAppointmentId);
    db.appointments := db.appointments + [a];
    db.nextAppointmentId := db.nextAppointmentId + 1;
    r := Success(a);
  }

  /** update: the row with the given id takes the supplied fields; a missing
      id is an error and changes nothing. */
  method Update(db: Db, id: nat, p: Patch) returns (r: Result<Appointment, StoreError>)
    requires db.Valid()
    modifies db`appointments
    ensures db.Valid()
    ensures r.Failure? <==> FindById(old(db.appointments), id).None?
    ensures r.Failure? ==> r.error == RecordNotFound && db.appointments == old(db.appointments)
    ensures r.Success? ==>
      && r.value == Patched(FindById(old(db.appointments), id).value, p)
      && db.appointments == UpdateRows(old(db.appointments), id, p)
  {
    var found := FindById(db.appointments, id);
    if found.None? {
      return Failure(RecordNotFound);
    }
    db.appointments := UpdateRows(db.appointments, id, p);
    r := Success(Patched(found.value, p));
  }

  lemma PrependKeepsIds(x: Appointment, rest: seq<Appointment>, next: nat)
    requires IdsAscending(rest, AppointmentKey, next)
    requires x.id < next && forall a :: a in rest ==> x.id < a.id
    ensures IdsAscending([x] + rest, AppointmentKey, next)
  {
    var r := [x] + rest;
    assert forall i :: 1 <= i < |r| ==> r[i] == rest[i - 1];
  }

  /** Dropping rows keeps ids ascending. */
  lemma {:induction false} FilterKeepsIds(rows: seq<Appointment>, q: Appointment -> bool, next: nat)
    requires IdsAscending(rows, AppointmentKey, next)
    ensures IdsAscending(Filter(rows, q), AppointmentKey, next)
  {
    if rows != [] {
      FilterKeepsIds(rows[1..], q, next);
      var rest := Filter(rows[1..], q);
      assert Filter(rows, q) == if q(rows[0]) then [rows[0]] + rest else rest;
      if q(rows[0]) {
        assert forall a :: a in rows[1..] ==> rows[0].id < a.id by {
          assert forall k :: 0 <= k < |rows[1..]| ==> rows[1..][k] == rows[k + 1];
        }
        PrependKeepsIds(rows[0], rest, next);
      }
    }
  }

  /** delete: removes the row with the given id; a missing id is an error
      and changes nothing. */
  method Delete(db: Db, id: nat) returns (r: Result<(), StoreError>)
    requires db.Valid()
    modifies db`appointments
    ensures db.Valid()
    ensures r.Failure? <==> FindById(old(db.appointments), id).None?
    ensures r.Failure? ==> r.error == RecordNotFound && db.appointments == old(db.appointments)
    ensures r.Success? ==> db.appointments == Filter(old(db.appointments), (a: Appointment) => a.id != id)
  {
    if FindById(db.appointments, id).None? {
      return Failure(RecordNotFound);
    }
    FilterKeepsIds(db.appointments, (a: Appointment) => a.id != id, db.nextAppointmentId);
    db.appointments := Filter(db.appointments, (a: Appointment) => a.id != id);
    r := Success(());
  }
}
