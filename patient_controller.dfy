/** The patient endpoints: registering a patient, with the list of missing
    fields on a 400, and looking a patient up by phone. */
module PatientController {
  import opened Wrappers
  import opened Records
  import opened Storage
  import opened Http
  import opened Seqs
  import Repo = PatientRepository

  /** The five required fields, in the order the `missing` list keeps. */
  const FieldOrder: seq<string> := ["firstName", "lastName", "email", "phone", "dateOfBirth"]

  /** The name of the field when it is falsy, as `Object.entries(...)
      .filter(([_, value]) => !value).map(([key]) => key)` keeps it. */
  function IfFalsy(falsy: bool, name: string): seq<string> {
    if falsy then [name] else []
  }

  /** The names of the falsy fields, in the order of FieldOrder. */
  function MissingFields(firstName: Option<string>, lastName: Option<string>, email: Option<string>,
                         phone: Option<string>, dateOfBirth: Param<Option<int>>): (missing: seq<string>)
    ensures missing == [] <==>
      !(FalsyText(firstName) || FalsyText(lastName) || FalsyText(email) || FalsyText(phone) || Falsy(dateOfBirth))
  {
    IfFalsy(FalsyText(firstName), "firstName") + (IfFalsy(FalsyText(lastName), "lastName")
      + (IfFalsy(FalsyText(email), "email") + (IfFalsy(FalsyText(phone), "phone")
      + IfFalsy(Falsy(dateOfBirth), "dateOfBirth"))))
  }

  /** The missing list names exactly the falsy fields. */
  lemma MissingNamesFalsy(firstName: Option<string>, lastName: Option<string>, email: Option<string>,
                          phone: Option<string>, dateOfBirth: Param<Option<int>>)
    ensures var missing := MissingFields(firstName, lastName, email, phone, dateOfBirth);
      && ("firstName" in missing <==> FalsyText(firstName))
      && ("lastName" in missing <==> FalsyText(lastName))
      && ("email" in missing <==> FalsyText(email))
      && ("phone" in missing <==> FalsyText(phone))
      && ("dateOfBirth" in missing <==> Falsy(dateOfBirth))
      && forall f :: f in missing ==> f in FieldOrder
  {
    var a := IfFalsy(FalsyText(firstName), "firstName");
    var b := IfFalsy(FalsyText(lastName), "lastName");
    var c := IfFalsy(FalsyText(email), "email");
    var d := IfFalsy(FalsyText(phone), "phone");
    var e := IfFalsy(Falsy(dateOfBirth), "dateOfBirth");
    assert forall f :: f in a + (b + (c + (d + e))) <==> f in a || f in b || f in c || f in d || f in e;
    assert "firstName"[0] == 'f' && "lastName"[0] == 'l' && "email"[0] == 'e' && "phone"[0] == 'p' && "dateOfBirth"[0] == 'd';
  }

  /** The missing list keeps the field order. */
  lemma MissingInOrder(firstName: Option<string>, lastName: Option<string>, email: Option<string>,
                       phone: Option<string>, dateOfBirth: Param<Option<int>>)
    ensures Subsequence(MissingFields(firstName, lastName, email, phone, dateOfBirth), FieldOrder)
  {
    FlagsInOrder(FalsyText(firstName), FalsyText(lastName), FalsyText(email), FalsyText(phone), Falsy(dateOfBirth));
  }

  lemma FlagsInOrder(f1: bool, f2: bool, f3: bool, f4: bool, f5: bool)
    ensures Subsequence(IfFalsy(f1, "firstName") + (IfFalsy(f2, "lastName")
      + (IfFalsy(f3, "email") + (IfFalsy(f4, "phone") + IfFalsy(f5, "dateOfBirth")))), FieldOrder)
  {
    var fromEmail := IfFalsy(f3, "email") + (IfFalsy(f4, "phone") + IfFalsy(f5, "dateOfBirth"));
    TailInOrder(f3, f4, f5);
    assert FieldOrder[2..] == ["email", "phone", "dateOfBirth"];
    assert FieldOrder[1..] == ["lastName"] + FieldOrder[2..];
    assert FieldOrder == ["firstName"] + FieldOrder[1..];
    KeepOrSkip(f2, "lastName", fromEmail, FieldOrder[2..]);
    KeepOrSkip(f1, "firstName", IfFalsy(f2, "lastName") + fromEmail, FieldOrder[1..]);
  }

  lemma TailInOrder(f3: bool, f4: bool, f5: bool)
    ensures var r := IfFalsy(f3, "email") + (IfFalsy(f4, "phone") + IfFalsy(f5, "dateOfBirth"));
      Subsequence(r, ["email", "phone", "dateOfBirth"]) && "lastName" !in r && "firstName" !in r
  {
    var fromDob := IfFalsy(f5, "dateOfBirth");
    KeepOrSkip(f5, "dateOfBirth", [], []);
    assert fromDob + [] == fromDob;
    assert ["dateOfBirth"] + [] == ["dateOfBirth"];
    KeepOrSkip(f4, "phone", fromDob, ["dateOfBirth"]);
    assert ["phone"] + ["dateOfBirth"] == ["phone", "dateOfBirth"];
    KeepOrSkip(f3, "email", IfFalsy(f4, "phone") + fromDob, ["phone", "dateOfBirth"]);
    assert ["email"] + ["phone", "dateOfBirth"] == ["email", "phone", "dateOfBirth"];
  }

  /** Prepending x to the fields, and to the missing list only when it is
      falsy, keeps the missing list in field order. */
  lemma KeepOrSkip(falsy: bool, x: string, r: seq<string>, s: seq<string>)
    requires Subsequence(r, s) && x !in r
    ensures Subsequence(IfFalsy(falsy, x) + r, [x] + s)
  {
    if falsy {
      var k := [x] + r;
      assert k[0] == x && k[1..] == r;
    } else {
      assert IfFalsy(falsy, x) + r == r;
      assert r == [] || r[0] != ([x] + s)[0];
      assert ([x] + s)[1..] == s;
    }
  }

  /** What the catch block of create answers for a store failure: a unique
      violation names its first column. */
  function CreateFailure(e: StoreError): (r: Reply<Patient>)
    ensures r.Error?
    ensures r.status == BadRequest <==> e.UniqueViolation?
    ensures e.UniqueViolation? && e.target != [] ==> r.detail == Field(Some(e.target[0]))
    ensures r.status == BadRequest || r.status == ServerError
  {
    match e
    case UniqueViolation(target) =>
      Error(BadRequest, "A patient with this email or phone already exists",
            Field(if target == [] then None else Some(target[0])))
    case _ => Error(ServerError, "Failed to create patient", NoDetail)
  }

  class Controller {
    const db: Db

    ghost predicate Valid()
      reads this, db
    {
      db.Valid()
    }

    constructor (db: Db)
      requires db.Valid()
      ensures this.db == db && Valid()
    {
      this.db := db;
    }

    /** create: all five fields are required; the store then rejects an
        Invalid Date of birth (500) and a taken email or phone (400). */
    method Create(firstName: Option<string>, lastName: Option<string>, email: Option<string>,
                  phone: Option<string>, dateOfBirth: Param<Option<int>>) returns (r: Reply<Patient>)
      requires Valid()
      modifies db`patients, db`nextPatientId
      ensures Valid()
      ensures MissingFields(firstName, lastName, email, phone, dateOfBirth) != [] ==>
        r == Error(BadRequest, "All fields are required", Missing(MissingFields(firstName, lastName, email, phone, dateOfBirth)))
      ensures MissingFields(firstName, lastName, email, phone, dateOfBirth) == [] && dateOfBirth.value.None? ==>
        r == Error(ServerError, "Failed to create patient", NoDetail)
      ensures r.Json? <==>
        && MissingFields(firstName, lastName, email, phone, dateOfBirth) == []
        && dateOfBirth.value.Some?
        && Repo.Conflict(old(db.patients), email.value, phone.value).None?
      ensures r.Json? ==>
        && r == Json(Created, Patient(old(db.nextPatientId), firstName.value, lastName.value, email.value, phone.value, dateOfBirth.value.value))
        && db.patients == old(db.patients) + [r.body]
      ensures (MissingFields(firstName, lastName, email, phone, dateOfBirth) == [] && dateOfBirth.value.Some?
        && Repo.Conflict(old(db.patients), email.value, phone.value).Some?) ==>
        r == Error(BadRequest, "A patient with this email or phone already exists",
                   Field(Repo.Conflict(old(db.patients), email.value, phone.value)))
      ensures r.Error? ==> db.patients == old(db.patients)
    {
      var missing := MissingFields(firstName, lastName, email, phone, dateOfBirth);
      if FalsyText(firstName) || FalsyText(lastName) || FalsyText(email) || FalsyText(phone) || Falsy(dateOfBirth) {
        return Error(BadRequest, "All fields are required", Missing(missing));
      }
      var patient := Repo.Create(db, firstName.value, lastName.value, email.value, phone.value, dateOfBirth.value);
      if patient.Failure? {
        return CreateFailure(patient.error);
      }
      r := Json(Created, patient.value);
    }

    /** findByPhone: the patient with that phone, or 404; a request without
        a phone makes the store query fail. */
    method FindByPhone(phone: Option<string>) returns (r: Reply<Patient>)
      requires Valid()
      ensures phone.None? ==> r == Error(ServerError, "Failed to fetch patient", NoDetail)
      ensures phone.Some? && (forall p :: p in db.patients ==> p.phone != phone.value) ==>
        r == Error(NotFound, "Patient not found", NoDetail)
      ensures r.Json? <==> phone.Some? && exists p :: p in db.patients && p.phone == phone.value
      ensures r.Json? ==> r.status == Ok && r.body in db.patients && r.body.phone == phone.value
    {
      if phone.None? {
        return Error(ServerError, "Failed to fetch patient", NoDetail);
      }
      var patient := Repo.FindByPhone(db.patients, phone.value);
      if patient.None? {
        return Error(NotFound, "Patient not found", NoDetail);
      }
      r := Json(Ok, patient.value);
    }
  }
}
