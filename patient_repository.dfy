/** The patient repository: creating a patient and finding one by phone.
    Email and phone are unique columns of the patient table. */
module PatientRepository {
  import opened Wrappers
  import opened Records
  import opened Storage
  import opened Seqs

  /** The patient with the given phone, if any (`findUnique` on phone). */
  function FindByPhone(patients: seq<Patient>, phone: string): (r: Option<Patient>)
    ensures r.Some? ==> r.value in patients && r.value.phone == phone
    ensures r.None? <==> forall p :: p in patients ==> p.phone != phone
  {
    FindFirst(patients, (p: Patient) => p.phone == phone)
  }

  /** Phone is unique, so a stored patient is the one found by its phone. */
  lemma FindByPhoneFindsStored(patients: seq<Patient>, i: int)
    requires UniqueColumn(patients, PatientPhone)
    requires 0 <= i < |patients|
    ensures FindByPhone(patients, patients[i].phone) == Some(patients[i])
  {
    var r := FindByPhone(patients, patients[i].phone);
    var j :| 0 <= j < |patients| && patients[j] == r.value;
    assert PatientPhone(patients[j]) == PatientPhone(patients[i]);
  }

  /** The unique column a new row would repeat, email first, if any: the
      target a unique-constraint violation reports. */
  function Conflict(patients: seq<Patient>, email: string, phone: string): (c: Option<string>)
    ensures c == Some("email") <==> exists p :: p in patients && p.email == email
    ensures c == Some("phone") <==> (forall p :: p in patients ==> p.email != email) && exists p :: p in patients && p.phone == phone
    ensures c.None? <==> forall p :: p in patients ==> p.email != email && p.phone != phone
  {
    if FindFirst(patients, (p: Patient) => p.email == email).Some? then Some("email")
    else if FindByPhone(patients, phone).Some? then Some("phone")
    else None
  }

  /** create: a new patient with the next id. An Invalid Date of birth is
      rejected by the store, as is a repeated email or phone. */
  method Create(db: Db, firstName: string, lastName: string, email: string, phone: string, dateOfBirth: Option<int>)
    returns (r: Result<Patient, StoreError>)
    requires db.Valid()
    modifies db`patients, db`nextPatientId
    ensures db.Valid()
    ensures r.Failure? ==> db.patients == old(db.patients)
    ensures dateOfBirth.None? ==> r == Failure(InvalidValue)
    ensures dateOfBirth.Some? && Conflict(old(db.patients), email, phone).Some? ==>
      r == Failure(UniqueViolation([Conflict(old(db.patients), email, phone).value]))
    ensures r.Success? <==> dateOfBirth.Some? && Conflict(old(db.patients), email, phone).None?
    ensures r.Success? ==>
      && r.value == Patient(old(db.nextPatientId), firstName, lastName, email, phone, dateOfBirth.value)
      && db.patients == old(db.patients) + [r.value]
  {
    if dateOfBirth.None? {
      return Failure(InvalidValue);
    }
    var conflict := Conflict(db.patients, email, phone);
    if conflict.Some? {
      return Failure(UniqueViolation([conflict.value]));
    }
    var p := Patient(db.nextPatientId, firstName, lastName, email, phone, dateOfBirth.value);
    AppendKeepsIds(db.patients, p, PatientKey, db.nextPatientId);
    AppendKeepsUnique(db.patients, p, PatientEmail);
    AppendKeepsUnique(db.patients, p, PatientPhone);
    db.patients := db.patients + [p];
    db.nextPatientId := db.nextPatientId + 1;
    r := Success(p);
  }
}
