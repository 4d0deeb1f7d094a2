/** The doctor repository: creating and finding doctors, and the slot
    calculator that lists the free hourly slots of a doctor's working day
    (08:00 to 17:00 UTC). */
module DoctorRepository {
  import opened Wrappers
  import opened Records
  import opened Storage
  import opened Seqs
  import opened UtcTime

  /** The k-th hour of date's working day: 08:00 plus k hours, UTC. */
  function GridHour(date: int, k: int): int {
    Midnight(date) + (8 + k) * HourMs
  }

  /** The hourly grid of date's UTC working day: 08:00, 09:00, ..., 16:00. */
  function WorkingHours(date: int): (g: seq<int>)
    ensures |g| == 9
    ensures forall k :: 0 <= k < 9 ==> g[k] == GridHour(date, k)
  {
    seq(9, k => GridHour(date, k))
  }

  /** The instants of the doctor's SCHEDULED appointments in [start, end). */
  function BookedTimes(rows: seq<Appointment>, doctorId: nat, start: int, end: int): set<int> {
    set a | a in rows && a.doctorId == doctorId && start <= a.datetime < end && a.status == Scheduled :: a.datetime
  }

  /** The elements of s that are not booked, in order. */
  function Unbooked(s: seq<int>, booked: set<int>): seq<int> {
    if s == [] then []
    else Unbooked(s[..|s| - 1], booked) + (if s[|s| - 1] in booked then [] else [s[|s| - 1]])
  }

  /** The slots getAvailableTimeSlots answers: the grid minus the instants
      booked that day. */
  function AvailableSlots(rows: seq<Appointment>, doctorId: nat, date: int): seq<int> {
    var startOfDay := Midnight(date) + 8 * HourMs;
    Unbooked(WorkingHours(date), BookedTimes(rows, doctorId, startOfDay, startOfDay + 9 * HourMs))
  }

  predicate StrictlyAscending(s: seq<int>) {
    forall i, j :: 0 <= i < j < |s| ==> s[i] < s[j]
  }

  lemma {:induction false} UnbookedMembers(s: seq<int>, booked: set<int>)
    ensures forall x :: x in Unbooked(s, booked) <==> x in s && x !in booked
    ensures |Unbooked(s, booked)| <= |s|
  {
    if s != [] {
      var p := s[..|s| - 1];
      UnbookedMembers(p, booked);
      assert s == p + [s[|s| - 1]];
    }
  }

  lemma {:induction false} UnbookedAscending(s: seq<int>, booked: set<int>)
    requires StrictlyAscending(s)
    ensures StrictlyAscending(Unbooked(s, booked))
  {
    if s != [] {
      var p := s[..|s| - 1];
      var last := s[|s| - 1];
      UnbookedAscending(p, booked);
      UnbookedMembers(p, booked);
      var u := Unbooked(p, booked);
      assert forall x :: x in u ==> x < last by {
        forall x | x in u ensures x < last {
          var k :| 0 <= k < |p| && p[k] == x;
        }
      }
      if last !in booked {
        var r := u + [last];
        assert forall i :: 0 <= i < |u| ==> r[i] == u[i] && r[i] in u;
      }
    }
  }

  predicate Distinct(s: seq<int>) {
    forall i, j :: 0 <= i < j < |s| ==> s[i] != s[j]
  }

  /** The elements of s as a set. */
  function Elements(s: seq<int>): set<int> {
    set x | x in s
  }

  lemma ElementsAppend(p: seq<int>, last: int)
    ensures Elements(p + [last]) == Elements(p) + {last}
  {
  }

  /** Each booked element of a duplicate-free s removes exactly one. */
  lemma {:induction false} UnbookedCount(s: seq<int>, booked: set<int>)
    requires Distinct(s)
    ensures |Unbooked(s, booked)| + |booked * Elements(s)| == |s|
  {
    if s != [] {
      var p := s[..|s| - 1];
      var last := s[|s| - 1];
      assert s == p + [last];
      assert Distinct(p) by {
        assert forall k :: 0 <= k < |p| ==> p[k] == s[k];
      }
      assert last !in Elements(p) by {
        assert forall k :: 0 <= k < |p| ==> p[k] == s[k] && s[k] != last;
      }
      UnbookedCount(p, booked);
      HitsStep(p, last, booked);
    }
  }

  /** Appending an element not yet present adds one hit exactly when it is
      booked. */
  lemma HitsStep(p: seq<int>, last: int, booked: set<int>)
    requires last !in Elements(p)
    ensures |booked * Elements(p + [last])| == |booked * Elements(p)| + if last in booked then 1 else 0
  {
    ElementsAppend(p, last);
    var before := booked * Elements(p);
    assert last !in before;
    if last in booked {
      assert booked * Elements(p + [last]) == before + {last};
    } else {
      assert booked * Elements(p + [last]) == before;
    }
  }

  /** Only the booked elements that occur in s matter. */
  lemma {:induction false} UnbookedSameHits(s: seq<int>, b1: set<int>, b2: set<int>)
    requires forall x :: x in s ==> (x in b1 <==> x in b2)
    ensures Unbooked(s, b1) == Unbooked(s, b2)
  {
    if s != [] {
      assert forall x :: x in s[..|s| - 1] ==> x in s;
      var last := s[|s| - 1];
      assert last in s;
      UnbookedSameHits(s[..|s| - 1], b1, b2);
      assert Unbooked(s, b1) == Unbooked(s[..|s| - 1], b1) + (if last in b1 then [] else [last]);
    }
  }

  lemma {:induction false} UnbookedNone(s: seq<int>, booked: set<int>)
    requires forall x :: x in s ==> x !in booked
    ensures Unbooked(s, booked) == s
  {
    if s != [] {
      assert forall x :: x in s[..|s| - 1] ==> x in s;
      var last := s[|s| - 1];
      assert last in s;
      UnbookedNone(s[..|s| - 1], booked);
      assert Unbooked(s, booked) == Unbooked(s[..|s| - 1], booked) + [last];
      assert s[..|s| - 1] + [s[|s| - 1]] == s;
    }
  }

  lemma WorkingHoursAscending(date: int)
    ensures StrictlyAscending(WorkingHours(date))
    ensures Distinct(WorkingHours(date))
  {
  }

  /** A grid hour keeps date's UTC day and has no minutes, seconds or
      milliseconds. */
  lemma GridHourFields(date: int, k: int)
    requires 0 <= k < 9
    ensures DayNumber(GridHour(date, k)) == DayNumber(date)
    ensures Midnight(GridHour(date, k)) == Midnight(date)
    ensures Hours(GridHour(date, k)) == 8 + k
    ensures GridHour(date, k) % HourMs == 0
  {
    FieldsOf(DayNumber(date), 8 + k, 0, 0);
    var t := GridHour(date, k);
    assert t == (DayNumber(date) * 24 + 8 + k) * HourMs;
  }

  /** Every slot is a whole hour from 08:00 to 16:00 of date's UTC day, and
      there are at most nine. */
  lemma SlotsInWorkingDay(rows: seq<Appointment>, doctorId: nat, date: int)
    ensures |AvailableSlots(rows, doctorId, date)| <= 9
    ensures forall x :: x in AvailableSlots(rows, doctorId, date) ==>
      exists k :: 0 <= k < 9 && x == GridHour(date, k)
    ensures forall x :: x in AvailableSlots(rows, doctorId, date) ==>
      Midnight(date) + 8 * HourMs <= x < Midnight(date) + 17 * HourMs && DayNumber(x) == DayNumber(date) && x % HourMs == 0
  {
    var startOfDay := Midnight(date) + 8 * HourMs;
    var g := WorkingHours(date);
    UnbookedMembers(g, BookedTimes(rows, doctorId, startOfDay, startOfDay + 9 * HourMs));
    forall x | x in AvailableSlots(rows, doctorId, date)
      ensures exists k :: 0 <= k < 9 && x == GridHour(date, k)
      ensures Midnight(date) + 8 * HourMs <= x < Midnight(date) + 17 * HourMs && DayNumber(x) == DayNumber(date) && x % HourMs == 0
    {
      var k :| 0 <= k < 9 && g[k] == x;
      GridHourFields(date, k);
    }
  }

  /** The slots ascend strictly. */
  lemma SlotsAscending(rows: seq<Appointment>, doctorId: nat, date: int)
    ensures StrictlyAscending(AvailableSlots(rows, doctorId, date))
  {
    WorkingHoursAscending(date);
    var startOfDay := Midnight(date) + 8 * HourMs;
    UnbookedAscending(WorkingHours(date), BookedTimes(rows, doctorId, startOfDay, startOfDay + 9 * HourMs));
  }

  /** A booked instant: a SCHEDULED appointment of the doctor at exactly x. */
  predicate BookedAt(rows: seq<Appointment>, doctorId: nat, x: int) {
    exists a :: a in rows && a.doctorId == doctorId && a.status == Scheduled && a.datetime == x
  }

  /** A grid hour is omitted exactly when a SCHEDULED appointment of that
      doctor starts at that very millisecond. */
  lemma SlotOmittedIffBooked(rows: seq<Appointment>, doctorId: nat, date: int, k: int)
    requires 0 <= k < 9
    ensures GridHour(date, k) in AvailableSlots(rows, doctorId, date) <==> !BookedAt(rows, doctorId, GridHour(date, k))
  {
    var startOfDay := Midnight(date) + 8 * HourMs;
    var booked := BookedTimes(rows, doctorId, startOfDay, startOfDay + 9 * HourMs);
    var x := GridHour(date, k);
    UnbookedMembers(WorkingHours(date), booked);
    assert x == WorkingHours(date)[k];
    if BookedAt(rows, doctorId, x) {
      var a :| a in rows && a.doctorId == doctorId && a.status == Scheduled && a.datetime == x;
      assert x in booked;
    }
  }

  /** With no SCHEDULED appointment of the doctor that day, all nine hours
      are free. */
  lemma NoBookingsAllSlots(rows: seq<Appointment>, doctorId: nat, date: int)
    requires forall a :: a in rows && a.doctorId == doctorId && a.status == Scheduled ==>
      DayNumber(a.datetime) != DayNumber(date)
    ensures AvailableSlots(rows, doctorId, date) == WorkingHours(date)
  {
    var startOfDay := Midnight(date) + 8 * HourMs;
    var booked := BookedTimes(rows, doctorId, startOfDay, startOfDay + 9 * HourMs);
    forall a | a in rows && startOfDay <= a.datetime < startOfDay + 9 * HourMs
      ensures DayNumber(a.datetime) == DayNumber(date)
    {
      DayAndTime(DayNumber(date), a.datetime - Midnight(date));
    }
    UnbookedNone(WorkingHours(date), booked);
  }

  /** Appointments that are not SCHEDULED, belong to another doctor, or do
      not start on a grid hour (09:30, say) remove no slot. */
  lemma OffGridIgnored(rows: seq<Appointment>, a: Appointment, doctorId: nat, date: int)
    requires a.status != Scheduled || a.doctorId != doctorId || a.datetime !in WorkingHours(date)
    ensures AvailableSlots(rows + [a], doctorId, date) == AvailableSlots(rows, doctorId, date)
  {
    var startOfDay := Midnight(date) + 8 * HourMs;
    var b1 := BookedTimes(rows + [a], doctorId, startOfDay, startOfDay + 9 * HourMs);
    var b2 := BookedTimes(rows, doctorId, startOfDay, startOfDay + 9 * HourMs);
    forall x | x in WorkingHours(date) ensures x in b1 <==> x in b2 {
      if x in b1 {
        var c :| c in rows + [a] && c.doctorId == doctorId && startOfDay <= c.datetime < startOfDay + 9 * HourMs
          && c.status == Scheduled && c.datetime == x;
        assert c in rows;
      }
    }
    UnbookedSameHits(WorkingHours(date), b1, b2);
  }

  /** Only the UTC calendar day of the requested date matters. */
  lemma DayOnly(rows: seq<Appointment>, doctorId: nat, d1: int, d2: int)
    requires DayNumber(d1) == DayNumber(d2)
    ensures AvailableSlots(rows, doctorId, d1) == AvailableSlots(rows, doctorId, d2)
  {
    assert Midnight(d1) == Midnight(d2);
    assert WorkingHours(d1) == WorkingHours(d2);
  }

  /** Monday 2024-11-18 (UTC midnight 1731888000000): with the doctor booked
      at 09:00 and 13:00, the free hours are 08, 10, 11, 12, 14, 15 and 16. */
  lemma MondayExample()
    ensures var t := 1731888000000;
      var rows := [Appointment(1, 1, 1, t + 9 * HourMs, Scheduled), Appointment(2, 1, 2, t + 13 * HourMs, Scheduled)];
      AvailableSlots(rows, 1, t) ==
        [t + 8 * HourMs, t + 10 * HourMs, t + 11 * HourMs, t + 12 * HourMs, t + 14 * HourMs, t + 15 * HourMs, t + 16 * HourMs]
  {
    var t := 1731888000000;
    var rows := [Appointment(1, 1, 1, t + 9 * HourMs, Scheduled), Appointment(2, 1, 2, t + 13 * HourMs, Scheduled)];
    DayAndTime(20045, 0);
    assert Midnight(t) == t;
    var booked := BookedTimes(rows, 1, t + 8 * HourMs, t + 17 * HourMs);
    assert booked == {t + 9 * HourMs, t + 13 * HourMs};
    var g := WorkingHours(t);
    assert Unbooked(g[..1], booked) == [t + 8 * HourMs];
    assert g[..2] == g[..1] + [g[1]];
    assert Unbooked(g[..2], booked) == [t + 8 * HourMs];
    assert g[..3] == g[..2] + [g[2]];
    assert Unbooked(g[..3], booked) == [t + 8 * HourMs, t + 10 * HourMs];
    assert g[..4] == g[..3] + [g[3]];
    assert Unbooked(g[..4], booked) == [t + 8 * HourMs, t + 10 * HourMs, t + 11 * HourMs];
    assert g[..5] == g[..4] + [g[4]];
    assert Unbooked(g[..5], booked) == [t + 8 * HourMs, t + 10 * HourMs, t + 11 * HourMs, t + 12 * HourMs];
    assert g[..6] == g[..5] + [g[5]];
    assert Unbooked(g[..6], booked) == [t + 8 * HourMs, t + 10 * HourMs, t + 11 * HourMs, t + 12 * HourMs];
    assert g[..7] == g[..6] + [g[6]];
    assert Unbooked(g[..7], booked) == [t + 8 * HourMs, t + 10 * HourMs, t + 11 * HourMs, t + 12 * HourMs, t + 14 * HourMs];
    assert g[..8] == g[..7] + [g[7]];
    assert Unbooked(g[..8], booked) == [t + 8 * HourMs, t + 10 * HourMs, t + 11 * HourMs, t + 12 * HourMs, t + 14 * HourMs, t + 15 * HourMs];
    assert g[..9] == g[..8] + [g[8]];
    assert Unbooked(g[..9], booked) == [t + 8 * HourMs, t + 10 * HourMs, t + 11 * HourMs, t + 12 * HourMs, t + 14 * HourMs, t + 15 * HourMs, t + 16 * HourMs];
    assert g[..9] == g;
  }

  /** Nine slots less one per distinct booked grid hour. */
  lemma SlotCount(rows: seq<Appointment>, doctorId: nat, date: int)
    ensures var startOfDay := Midnight(date) + 8 * HourMs;
      |AvailableSlots(rows, doctorId, date)| ==
        9 - |BookedTimes(rows, doctorId, startOfDay, startOfDay + 9 * HourMs) * Elements(WorkingHours(date))|
  {
    WorkingHoursAscending(date);
    var startOfDay := Midnight(date) + 8 * HourMs;
    UnbookedCount(WorkingHours(date), BookedTimes(rows, doctorId, startOfDay, startOfDay + 9 * HourMs));
  }

  /** getAvailableTimeSlots: walks the working day hour by hour from 08:00
      and keeps every hour that no SCHEDULED appointment of the doctor
      occupies at that exact instant. */
  method GetAvailableTimeSlots(rows: seq<Appointment>, doctorId: nat, date: int) returns (availableSlots: seq<int>)
    ensures availableSlots == AvailableSlots(rows, doctorId, date)
  {
    var requestedDate := SetHms(date, 0, 0, 0, 0);
    DayAndTime(DayNumber(date), 0);
    var startOfDay := SetHms(requestedDate, 8, 0, 0, 0);
    var endOfDay := SetHms(requestedDate, 17, 0, 0, 0);
    var bookedTimes := BookedTimes(rows, doctorId, startOfDay, endOfDay);
    ghost var grid := WorkingHours(date);
    availableSlots := [];
    var currentSlot := startOfDay;
    ghost var k := 0;
    while currentSlot < endOfDay
      invariant 0 <= k <= 9
      invariant currentSlot == GridHour(date, k)
      invariant availableSlots == Unbooked(grid[..k], bookedTimes)
      decreases 9 - k
    {
      assert grid[..k + 1] == grid[..k] + [currentSlot];
      if currentSlot !in bookedTimes {
        availableSlots := availableSlots + [currentSlot];
      }
      GridHourFields(date, k);
      currentSlot := SetHour(currentSlot, Hours(currentSlot) + 1);
      k := k + 1;
    }
    assert grid[..9] == grid;
  }

  /** The doctor with the given id, if any (`findUnique`). */
  function FindById(doctors: seq<Doctor>, id: nat): (r: Option<Doctor>)
    ensures r.Some? ==> r.value in doctors && r.value.id == id
    ensures r.None? <==> forall d :: d in doctors ==> d.id != id
  {
    FindFirst(doctors, (d: Doctor) => d.id == id)
  }

  /** create: a new doctor with the next id; the email column is unique. */
  method Create(db: Db, firstName: string, lastName: string, email: string) returns (r: Result<Doctor, StoreError>)
    requires db.Valid()
    modifies db`doctors, db`nextDoctorId
    ensures db.Valid()
    ensures r.Failure? <==> exists d :: d in old(db.doctors) && d.email == email
    ensures r.Failure? ==> r.error == UniqueViolation(["email"]) && db.doctors == old(db.doctors)
    ensures r.Success? ==>
      && r.value == Doctor(old(db.nextDoctorId), firstName, lastName, email)
      && db.doctors == old(db.doctors) + [r.value]
  {
    if FindFirst(db.doctors, (d: Doctor) => d.email == email).Some? {
      return Failure(UniqueViolation(["email"]));
    }
    var d := Doctor(db.nextDoctorId, firstName, lastName, email);
    AppendKeepsIds(db.doctors, d, DoctorKey, db.nextDoctorId);
    AppendKeepsUnique(db.doctors, d, DoctorEmail);
    db.doctors := db.doctors + [d];
    db.nextDoctorId := db.nextDoctorId + 1;
    r := Success(d);
  }
}
