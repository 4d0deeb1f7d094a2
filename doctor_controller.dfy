/** The doctor endpoints: registering a doctor, looking one up, and the
    free slots of a doctor's working day. */
module DoctorController {
  import opened Wrappers
  import opened Records
  import opened Storage
  import opened Http
  import opened UtcTime
  import opened CivilDate
  import Repo = DoctorRepository

  /** The body of a slots answer. */
  datatype SlotsBody = SlotsBody(date: string, availableSlots: seq<int>, timezone: string, start: string, end: string)

  /** What the catch block of create answers for a store failure. */
  function CreateFailure(e: StoreError): (r: Reply<Doctor>)
    ensures r.Error? && r.detail == NoDetail
    ensures r.status == BadRequest <==> e.UniqueViolation?
    ensures r.status == BadRequest || r.status == ServerError
  {
    if e.UniqueViolation? then Error(BadRequest, "A doctor with this email already exists", NoDetail)
    else Error(ServerError, "Failed to create doctor", NoDetail)
  }

  /** The slots all lie on the day the answer names. */
  lemma SlotsOnNamedDay(rows: seq<Appointment>, doctorId: nat, t: int)
    ensures forall x :: x in Repo.AvailableSlots(rows, doctorId, t) ==> IsoDate(x) == IsoDate(t)
  {
    Repo.SlotsInWorkingDay(rows, doctorId, t);
  }

  class Controller {
    const db: Db

    ghost predicate Valid()
      reads this, db
    {
      db.Valid()
    }

    constructor (db: Db)
      requires db.Valid()
      ensures this.db == db && Valid()
    {
      this.db := db;
    }

    /** create: first name, last name and email are all required; a taken
        email is a 400. */
    method Create(firstName: Option<string>, lastName: Option<string>, email: Option<string>) returns (r: Reply<Doctor>)
      requires Valid()
      modifies db`doctors, db`nextDoctorId
      ensures Valid()
      ensures FalsyText(firstName) || FalsyText(lastName) || FalsyText(email) ==>
        r == Error(BadRequest, "First name, last name, and email are required", NoDetail)
      ensures !(FalsyText(firstName) || FalsyText(lastName) || FalsyText(email)) ==>
        if exists d :: d in old(db.doctors) && d.email == email.value
        then r == Error(BadRequest, "A doctor with this email already exists", NoDetail)
        else
          && r == Json(Created, Doctor(old(db.nextDoctorId), firstName.value, lastName.value, email.value))
          && db.doctors == old(db.doctors) + [r.body]
      ensures r.Error? ==> r.status == BadRequest && db.doctors == old(db.doctors)
    {
      if FalsyText(firstName) || FalsyText(lastName) || FalsyText(email) {
        return Error(BadRequest, "First name, last name, and email are required", NoDetail);
      }
      var doctor := Repo.Create(db, firstName.value, lastName.value, email.value);
      if doctor.Failure? {
        return CreateFailure(doctor.error);
      }
      r := Json(Created, doctor.value);
    }

    /** getById: the doctor, or 404 when no doctor has that id. */
    method GetById(id: nat) returns (r: Reply<Doctor>)
      requires Valid()
      ensures r.Error? <==> forall d :: d in db.doctors ==> d.id != id
      ensures r.Error? ==> r == Error(NotFound, "Doctor not found", NoDetail)
      ensures r.Json? ==> r.status == Ok && r.body in db.doctors && r.body.id == id
    {
      var doctor := Repo.FindById(db.doctors, id);
      if doctor.None? {
        return Error(NotFound, "Doctor not found", NoDetail);
      }
      r := Json(Ok, doctor.value);
    }

    /** getAvailableSlots: both parameters are checked before the doctor is
        looked up; an unparsable date makes the store query fail. */
    method GetAvailableSlots(doctorId: Param<nat>, date: Param<Option<int>>) returns (r: Reply<SlotsBody>)
      requires Valid()
      ensures Falsy(doctorId) || Falsy(date) ==> r == Error(BadRequest, "Doctor ID and date are required", NoDetail)
      ensures !Falsy(doctorId) && !Falsy(date) && Repo.FindById(db.doctors, doctorId.value).None? ==>
        r == Error(NotFound, "Doctor not found", NoDetail)
      ensures !Falsy(doctorId) && !Falsy(date) && Repo.FindById(db.doctors, doctorId.value).Some? && date.value.None? ==>
        r == Error(ServerError, "Failed to fetch available slots", NoDetail)
      ensures r.Json? <==>
        !Falsy(doctorId) && !Falsy(date) && Repo.FindById(db.doctors, doctorId.value).Some? && date.value.Some?
      ensures r.Error? ==> r.status in {BadRequest, NotFound, ServerError}
      ensures r.Json? ==>
        && r.status == Ok
        && r.body.availableSlots == Repo.AvailableSlots(db.appointments, doctorId.value, date.value.value)
        && r.body.date == IsoDate(date.value.value)
        && (forall x :: x in r.body.availableSlots ==> IsoDate(x) == r.body.date)
        && r.body.timezone == "UTC" && r.body.start == "08:00" && r.body.end == "17:00"
    {
      if Falsy(doctorId) || Falsy(date) {
        return Error(BadRequest, "Doctor ID and date are required", NoDetail);
      }
      var doctor := Repo.FindById(db.doctors, doctorId.value);
      if doctor.None? {
        return Error(NotFound, "Doctor not found", NoDetail);
      }
      if date.value.None? {
        return Error(ServerError, "Failed to fetch available slots", NoDetail);
      }
      var requestDate := date.value.value;
      var availableSlots := Repo.GetAvailableTimeSlots(db.appointments, doctorId.value, requestDate);
      SlotsOnNamedDay(db.appointments, doctorId.value, requestDate);
      r := Json(Ok, SlotsBody(IsoDate(requestDate), availableSlots, "UTC", "08:00", "17:00"));
    }
  }
}
