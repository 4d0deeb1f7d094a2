/** The database the three repositories share: one table per entity, each
    with an autoincrement id, and the unique columns of the schema (doctor
    email, patient email, patient phone). */
module Storage {
  import opened Records

  /** Why the database rejects an operation: a row to update, delete or
      connect to is missing (Prisma's P2025), a unique column would repeat
      (P2002, with the offending columns), or a value is unusable, such as an
      Invalid Date. */
  datatype StoreError = RecordNotFound | UniqueViolation(target: seq<string>) | InvalidValue

  /** Rows are kept in insertion order, so their ids ascend strictly. */
  predicate IdsAscending<T>(rows: seq<T>, id: T -> nat, next: nat) {
    && (forall i, j :: 0 <= i < j < |rows| ==> id(rows[i]) < id(rows[j]))
    && (forall i :: 0 <= i < |rows| ==> id(rows[i]) < next)
  }

  /** No two rows share the value of a unique column. */
  predicate UniqueColumn<T>(rows: seq<T>, column: T -> string) {
    forall i, j :: 0 <= i < j < |rows| ==> column(rows[i]) != column(rows[j])
  }

  /** Appending a row that carries the next id keeps ids ascending. */
  lemma AppendKeepsIds<T>(rows: seq<T>, x: T, id: T -> nat, next: nat)
    requires IdsAscending(rows, id, next) && id(x) == next
    ensures IdsAscending(rows + [x], id, next + 1)
  {
    var r := rows + [x];
    assert forall i :: 0 <= i < |rows| ==> r[i] == rows[i];
  }

  /** Appending a row whose value is new keeps a column unique. */
  lemma AppendKeepsUnique<T>(rows: seq<T>, x: T, column: T -> string)
    requires UniqueColumn(rows, column)
    requires forall y :: y in rows ==> column(y) != column(x)
    ensures UniqueColumn(rows + [x], column)
  {
    var r := rows + [x];
    assert forall i :: 0 <= i < |rows| ==> r[i] == rows[i];
  }

  function DoctorKey(d: Doctor): nat { d.id }
  function PatientKey(p: Patient): nat { p.id }
  function AppointmentKey(a: Appointment): nat { a.id }
  function DoctorEmail(d: Doctor): string { d.email }
  function PatientEmail(p: Patient): string { p.email }
  function PatientPhone(p: Patient): string { p.phone }

  class Db {
    var doctors: seq<Doctor>
    var patients: seq<Patient>
    var appointments: seq<Appointment>
    var nextDoctorId: nat
    var nextPatientId: nat
    var nextAppointmentId: nat

    ghost predicate Valid()
      reads this
    {
      && IdsAscending(doctors, DoctorKey, nextDoctorId)
      && IdsAscending(patients, PatientKey, nextPatientId)
      && IdsAscending(appointments, AppointmentKey, nextAppointmentId)
      && UniqueColumn(doctors, DoctorEmail)
      && UniqueColumn(patients, PatientEmail)
      && UniqueColumn(patients, PatientPhone)
    }

    /** An empty database; autoincrement ids start at 1. */
    constructor ()
      ensures Valid()
      ensures doctors == [] && patients == [] && appointments == []
      ensures nextDoctorId == 1 && nextPatientId == 1 && nextAppointmentId == 1
    {
      doctors, patients, appointments := [], [], [];
      nextDoctorId, nextPatientId, nextAppointmentId := 1, 1, 1;
    }
  }
}
