/** The stored entities: doctors, patients and the appointments that link
    them. Times are integer milliseconds since the epoch, UTC. */
module Records {

  datatype Status = Scheduled | Completed | Cancelled

  datatype Appointment = Appointment(id: nat, doctorId: nat, patientId: nat, datetime: int, status: Status)

  datatype Doctor = Doctor(id: nat, firstName: string, lastName: string, email: string)

  datatype Patient = Patient(id: nat, firstName: string, lastName: string, email: string, phone: string, dateOfBirth: int)

  /** The ordering key of appointment queries. */
  function Datetime(a: Appointment): int {
    a.datetime
  }
}
