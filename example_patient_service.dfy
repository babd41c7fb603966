/** `com.example.patients.service.PatientService`: the patient operations of
    the `example` tree, over the patient repository. It saves the domain
    entity it is given; the email is checked for uniqueness on create and
    not on update. A patient's lazy `prescriptions` collection is the set of
    prescription rows that point back at it. */
module ExamplePatientService {
  import opened Wrappers
  import opened Failures
  import opened ClinicaDomain
  import RowOrder
  import Paging
  import Jpa
  import Repo = ExamplePatientRepository

  /** `setActive(false)`. */
  function Deactivated(p: Patient): (q: Patient)
    ensures !q.active && q.(active := p.active) == p
  {
    p.(active := false)
  }

  /** The patient after `updatePatient`: first name, last name, email and
      gender are the request's, nulls included; nothing else changes. */
  function Overwritten(existing: Patient, data: Patient): (p: Patient)
    ensures p.firstName == data.firstName && p.lastName == data.lastName
    ensures p.email == data.email && p.gender == data.gender
    ensures p.(firstName := existing.firstName, lastName := existing.lastName,
               email := existing.email, gender := existing.gender) == existing
  {
    existing.(firstName := data.firstName, lastName := data.lastName, email := data.email, gender := data.gender)
  }

  /** `p.prescriptions`: the prescriptions whose patient is `id`. */
  predicate PrescribedTo(id: int, p: Prescription) {
    p.patient == Some(PatientRef(Some(id)))
  }

  /** Storing a patient whose email no active patient has keeps active
      emails unique, whichever row it lands in. */
  lemma {:induction false} FreshEmailKeepsUnique(rows: map<int, Patient>, k: int, p: Patient)
    requires Repo.EmailsUnique(rows)
    requires Repo.FindByEmailAndIsActiveTrue(rows, p.email) == Ok(None)
    ensures Repo.EmailsUnique(rows[k := p])
  {
    var after := rows[k := p];
    var ids := RowOrder.Select(rows, (q: Patient) => Repo.HasEmail(p.email, q));
    forall j | j in rows && rows[j].active && p.email.Some?
      ensures rows[j].email != p.email
    {
      assert j !in ids;
    }
    forall i, j | i in after && j in after && i != j && after[i].active && after[j].active && after[i].email.Some?
      ensures after[i].email != after[j].email
    {
      if i == k {
        assert after[j] == rows[j];
      } else if j == k {
        assert after[i] == rows[i];
      } else {
        assert after[i] == rows[i] && after[j] == rows[j];
      }
    }
  }

  /** Updating patient 2 to the email of active patient 1 succeeds, and
      from then on the email lookup throws for that email. */
  lemma UpdateCanDuplicateEmail()
    ensures var a := NewPatient.(id := Some(1), email := Some("a@x"), active := true);
            var b := NewPatient.(id := Some(2), email := Some("b@x"), active := true);
            var rows := map[1 := a, 2 := b];
            && Repo.EmailsUnique(rows)
            && Repo.FindByIdAndIsActiveTrue(rows, 2).Some?
            && Repo.FindByEmailAndIsActiveTrue(rows[2 := Overwritten(b, a)], Some("a@x")) == Fail(IncorrectResultSize)
  {
    var a := NewPatient.(id := Some(1), email := Some("a@x"), active := true);
    var b := NewPatient.(id := Some(2), email := Some("b@x"), active := true);
    var rows := map[1 := a, 2 := b];
    var after := rows[2 := Overwritten(b, a)];
    assert "a@x" != "b@x" by { assert "a@x"[0] != "b@x"[0]; }
    assert Repo.EmailsUnique(rows);
    assert Repo.FindByIdAndIsActiveTrue(rows, 2).Some?;
    var ids := RowOrder.Select(after, (q: Patient) => Repo.HasEmail(Some("a@x"), q));
    assert 1 in ids && 2 in ids;
    assert ids == {1, 2};
  }

  /** A deleted patient is no longer found, and deleting it again finds
      nothing. */
  lemma {:induction false} DeleteThenGetIsEmpty(rows: map<int, Patient>, id: int)
    ensures var after := Jpa.SoftDelete(rows, id, Repo.IsActive, Deactivated).1;
            && Repo.FindByIdAndIsActiveTrue(after, id).None?
            && Jpa.SoftDelete(after, id, Repo.IsActive, Deactivated) == (false, after)
  {
    Jpa.SoftDeleteTwice(rows, id, Repo.IsActive, Deactivated);
  }

  class PatientService {
    const patientRepository: Jpa.Table<Patient>
    /** The prescription table behind each patient's `prescriptions`. */
    const prescriptionRepository: Jpa.Table<Prescription>

    /** The patient table stores patients under their own ids, and saving a
        new patient gives it the generated id. */
    ghost predicate Valid()
      reads this, patientRepository
    {
      && patientRepository.Valid()
      && (forall p :: patientRepository.idOf(p) == p.id)
      && (forall p, k :: patientRepository.withId(p, k) == p.(id := Some(k)))
    }

    constructor (patientRepository: Jpa.Table<Patient>, prescriptionRepository: Jpa.Table<Prescription>)
      requires patientRepository.Valid()
      requires forall p :: patientRepository.idOf(p) == p.id
      requires forall p, k :: patientRepository.withId(p, k) == p.(id := Some(k))
      ensures Valid()
      ensures this.patientRepository == patientRepository && this.prescriptionRepository == prescriptionRepository
    {
      this.patientRepository := patientRepository;
      this.prescriptionRepository := prescriptionRepository;
    }

    /** `getAllPatients(pageable)`: a page of the active patients. */
    function GetAllPatients(pageable: Paging.PageRequest): (page: Paging.Page<Patient>)
      reads this, patientRepository
      ensures page.totalElements == |set k | k in patientRepository.rows && patientRepository.rows[k].active|
      ensures forall i :: 0 <= i < |page.content| ==> page.content[i].active
      ensures page == Paging.PageOf(Jpa.Ordered(patientRepository.rows, Repo.IsActive, pageable.sort), pageable)
    {
      Repo.FindByIsActiveTrue(patientRepository.rows, pageable)
    }

    /** `getPatientById(id)`: present exactly for an active patient. */
    function GetPatientById(id: int): (r: Option<Patient>)
      reads this, patientRepository
      ensures r.Some? <==> id in patientRepository.rows && patientRepository.rows[id].active
      ensures r.Some? ==> r.value == patientRepository.rows[id]
    {
      Repo.FindByIdAndIsActiveTrue(patientRepository.rows, id)
    }

    /** `getPatientByEmail(email)`: the active patient with that email, if
        any; the lookup throws when several share it. */
    function GetPatientByEmail(email: Option<string>): (r: Result<Option<Patient>, Failure>)
      reads this, patientRepository
      ensures var ids := RowOrder.Select(patientRepository.rows, (p: Patient) => Repo.HasEmail(email, p));
              && (r == Ok(None) <==> ids == {})
              && (r.Fail? <==> |ids| > 1)
              && (r.Ok? && r.value.Some? ==> exists k :: k in ids && patientRepository.rows[k] == r.value.value)
      ensures r.Fail? ==> r.error == IncorrectResultSize
      ensures r.Ok? && r.value.Some? ==> r.value.value.active && email.Some? && r.value.value.email == email
    {
      Repo.FindByEmailAndIsActiveTrue(patientRepository.rows, email)
    }

    /** `searchPatientsByName(name, pageable)`. */
    function SearchPatientsByName(name: Option<string>, pageable: Paging.PageRequest): (page: Paging.Page<Patient>)
      reads this, patientRepository
      ensures forall i :: 0 <= i < |page.content| ==> Repo.NameMatches(name, page.content[i])
      ensures page.totalElements == |RowOrder.Select(patientRepository.rows, (p: Patient) => Repo.NameMatches(name, p))|
      ensures page == Paging.PageOf(Jpa.Ordered(patientRepository.rows, (p: Patient) => Repo.NameMatches(name, p), pageable.sort), pageable)
      ensures name.None? ==> page.totalElements == 0
    {
      var keep := (p: Patient) => Repo.NameMatches(name, p);
      if name.None? then
        assert RowOrder.Select(patientRepository.rows, keep) == {};
        Repo.FindByNameContainingIgnoreCaseAndIsActiveTrue(patientRepository.rows, name, pageable)
      else Repo.FindByNameContainingIgnoreCaseAndIsActiveTrue(patientRepository.rows, name, pageable)
    }

    /** `createPatient(patient)`: refused when an active patient has the
        email; otherwise saved as given, which inserts it under a new id
        unless its id names a stored row, which it then replaces. Active
        emails that were unique stay unique. */
    method CreatePatient(patient: Patient) returns (r: Result<Patient, Failure>)
      requires Valid()
      modifies patientRepository
      ensures Valid()
      ensures var found := Repo.FindByEmailAndIsActiveTrue(old(patientRepository.rows), patient.email);
              && (found.Fail? ==> r == Fail(IncorrectResultSize))
              && (found.Ok? && found.value.Some? ==> r == Fail(EmailTaken(patient.email.value)))
              && (r.Fail? ==> patientRepository.rows == old(patientRepository.rows) && patientRepository.nextId == old(patientRepository.nextId))
              && (found == Ok(None) ==>
                    var (saved, rows, next) := patientRepository.Saved(old(patientRepository.rows), old(patientRepository.nextId), patient);
                    && r == Ok(saved) && patientRepository.rows == rows && patientRepository.nextId == next)
      ensures old(Repo.EmailsUnique(patientRepository.rows)) ==> Repo.EmailsUnique(patientRepository.rows)
    {
      var found := Repo.FindByEmailAndIsActiveTrue(patientRepository.rows, patient.email);
      if found.Fail? {
        return Fail(found.error);
      }
      if found.value.Some? {
        return Fail(EmailTaken(patient.email.value));
      }
      ghost var before := patientRepository.rows;
      var saved := patientRepository.Save(patient);
      if Repo.EmailsUnique(before) {
        assert saved.email == patient.email;
        FreshEmailKeepsUnique(before, saved.id.value, saved);
      }
      return Ok(saved);
    }

    /** `updatePatient(id, patientData)`: not found without an active
        patient; otherwise names, email and gender are overwritten, nulls
        included, and saved back in place. The email is not checked. */
    method UpdatePatient(id: int, patientData: Patient) returns (r: Result<Patient, Failure>)
      requires Valid()
      modifies patientRepository
      ensures Valid()
      ensures patientRepository.nextId == old(patientRepository.nextId)
      ensures r.Fail? <==> Repo.FindByIdAndIsActiveTrue(old(patientRepository.rows), id).None?
      ensures r.Fail? ==> r.error == NotFound(PatientKind, id) && patientRepository.rows == old(patientRepository.rows)
      ensures r.Ok? ==> var p := Overwritten(old(patientRepository.rows)[id], patientData);
              && patientRepository.rows == old(patientRepository.rows)[id := p] && r.value == p
    {
      var existing := Repo.FindByIdAndIsActiveTrue(patientRepository.rows, id);
      if existing.None? {
        return Fail(NotFound(PatientKind, id));
      }
      var saved := patientRepository.Save(Overwritten(existing.value, patientData));
      return Ok(saved);
    }

    /** `deletePatient(id)`: the soft delete of an active patient; not
        found otherwise. */
    method DeletePatient(id: int) returns (r: Result<(), Failure>)
      requires Valid()
      modifies patientRepository
      ensures Valid()
      ensures patientRepository.nextId == old(patientRepository.nextId)
      ensures var (deleted, rows) := Jpa.SoftDelete(old(patientRepository.rows), id, Repo.IsActive, Deactivated);
              && patientRepository.rows == rows
              && (r.Fail? <==> !deleted)
              && (r.Fail? ==> r.error == NotFound(PatientKind, id))
    {
      var patient := Repo.FindByIdAndIsActiveTrue(patientRepository.rows, id);
      if patient.None? {
        return Fail(NotFound(PatientKind, id));
      }
      var saved := patientRepository.Save(Deactivated(patient.value));
      return Ok(());
    }

    /** `getPatientPrescriptions(patientId)`: not found without an active
        patient; otherwise every prescription pointing at the patient,
        active or not, each once. */
    function GetPatientPrescriptions(patientId: int): (r: Result<seq<Prescription>, Failure>)
      reads this, patientRepository, prescriptionRepository
      ensures r.Fail? <==> GetPatientById(patientId).None?
      ensures r.Fail? ==> r.error == NotFound(PatientKind, patientId)
      ensures r.Ok? ==> var rows := prescriptionRepository.rows;
              && (forall i :: 0 <= i < |r.value| ==> PrescribedTo(patientId, r.value[i]))
              && (forall k :: k in rows && PrescribedTo(patientId, rows[k]) ==> rows[k] in r.value)
              && |r.value| == |set k | k in rows && PrescribedTo(patientId, rows[k])|
    {
      if GetPatientById(patientId).None? then Fail(NotFound(PatientKind, patientId))
      else
        var keep := (p: Prescription) => PrescribedTo(patientId, p);
        assert RowOrder.Select(prescriptionRepository.rows, keep) == set k | k in prescriptionRepository.rows && PrescribedTo(patientId, prescriptionRepository.rows[k]);
        Ok(RowOrder.Query(prescriptionRepository.rows, keep))
    }

    /** `existsPatient(id)`. */
    function ExistsPatient(id: int): (r: bool)
      reads this, patientRepository
      ensures r <==> GetPatientById(id).Some?
    {
      Repo.ExistsByIdAndActiveTrue(patientRepository.rows, id)
    }
  }
}
