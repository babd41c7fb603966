/** `com.example.patients.service.PrescriptionService`: prescription
    operations over the prescription repository. The patient is required on
    create but not looked up; an update can only change the patient; the
    medication operations find the prescription and do nothing else. */
module ExamplePrescriptionService {
  import opened Wrappers
  import opened Failures
  import opened ClinicaDomain
  import Paging
  import Jpa
  import Repo = ExamplePrescriptionRepository

  /** `setActive(false)`. */
  function Deactivated(p: Prescription): (q: Prescription)
    ensures !q.active && q.(active := p.active) == p
  {
    p.(active := false)
  }

  /** The prescription after `updatePrescription`: the request's patient
      when it has one, the stored one otherwise; nothing else changes. */
  function Reassigned(existing: Prescription, data: Prescription): (p: Prescription)
    ensures data.patient.Some? ==> p.patient == data.patient
    ensures data.patient.None? ==> p == existing
    ensures p.(patient := existing.patient) == existing
  {
    existing.(patient := Pick(data.patient, existing.patient))
  }

  /** Applying the same update twice is applying it once. */
  lemma {:induction false} ReassignIdempotent(existing: Prescription, data: Prescription)
    ensures Reassigned(Reassigned(existing, data), data) == Reassigned(existing, data)
  {
  }

  /** A deleted prescription is no longer found, and deleting it again
      finds nothing. */
  lemma {:induction false} DeleteThenGetIsEmpty(rows: map<int, Prescription>, id: int)
    ensures var after := Jpa.SoftDelete(rows, id, Repo.IsActive, Deactivated).1;
            && Repo.FindByIdAndIsActiveTrue(after, id).None?
            && Jpa.SoftDelete(after, id, Repo.IsActive, Deactivated) == (false, after)
  {
    Jpa.SoftDeleteTwice(rows, id, Repo.IsActive, Deactivated);
  }

  class PrescriptionService {
    const prescriptionRepository: Jpa.Table<Prescription>

    /** The table stores prescriptions under their own ids, and saving a new
        one gives it the generated id. */
    ghost predicate Valid()
      reads this, prescriptionRepository
    {
      && prescriptionRepository.Valid()
      && (forall p :: prescriptionRepository.idOf(p) == p.id)
      && (forall p, k :: prescriptionRepository.withId(p, k) == p.(id := Some(k)))
    }

    constructor (prescriptionRepository: Jpa.Table<Prescription>)
      requires prescriptionRepository.Valid()
      requires forall p :: prescriptionRepository.idOf(p) == p.id
      requires forall p, k :: prescriptionRepository.withId(p, k) == p.(id := Some(k))
      ensures Valid()
      ensures this.prescriptionRepository == prescriptionRepository
    {
      this.prescriptionRepository := prescriptionRepository;
    }

    /** `getAllPrescriptions(pageable)`: a page of the active prescriptions. */
    function GetAllPrescriptions(pageable: Paging.PageRequest): (page: Paging.Page<Prescription>)
      reads this, prescriptionRepository
      ensures page.totalElements == |set k | k in prescriptionRepository.rows && prescriptionRepository.rows[k].active|
      ensures forall i :: 0 <= i < |page.content| ==> page.content[i].active
      ensures page == Paging.PageOf(Jpa.Ordered(prescriptionRepository.rows, Repo.IsActive, pageable.sort), pageable)
    {
      Repo.FindByActiveTrue(prescriptionRepository.rows, pageable)
    }

    /** `getPrescriptionById(id)`: present exactly for an active
        prescription. */
    function GetPrescriptionById(id: int): (r: Option<Prescription>)
      reads this, prescriptionRepository
      ensures r.Some? <==> id in prescriptionRepository.rows && prescriptionRepository.rows[id].active
      ensures r.Some? ==> r.value == prescriptionRepository.rows[id]
    {
      Repo.FindByIdAndIsActiveTrue(prescriptionRepository.rows, id)
    }

    /** `createPrescription(prescription)`: refused without a patient or a
        patient id; otherwise saved active. The patient id is not looked
        up, and a prescription whose id names a stored row replaces it. */
    method CreatePrescription(prescription: Prescription) returns (r: Result<Prescription, Failure>)
      requires Valid()
      modifies prescriptionRepository
      ensures Valid()
      ensures r.Fail? <==> prescription.patient.None? || prescription.patient.value.id.None?
      ensures r.Fail? ==> r.error == PatientRequired
                          && prescriptionRepository.rows == old(prescriptionRepository.rows)
                          && prescriptionRepository.nextId == old(prescriptionRepository.nextId)
      ensures r.Ok? ==> var (saved, rows, next) := prescriptionRepository.Saved(old(prescriptionRepository.rows), old(prescriptionRepository.nextId), prescription.(active := true));
              && r == Ok(saved) && prescriptionRepository.rows == rows && prescriptionRepository.nextId == next
      ensures r.Ok? ==> r.value.active && r.value.patient == prescription.patient && r.value.id.Some?
                        && GetPrescriptionById(r.value.id.value) == Some(r.value)
    {
      if prescription.patient.None? || prescription.patient.value.id.None? {
        return Fail(PatientRequired);
      }
      var saved := prescriptionRepository.Save(prescription.(active := true));
      return Ok(saved);
    }

    /** `updatePrescription(id, prescriptionData)`: not found without an
        active prescription; otherwise the patient is replaced when the
        request names one, and the row is saved back. */
    method UpdatePrescription(id: int, prescriptionData: Prescription) returns (r: Result<Prescription, Failure>)
      requires Valid()
      modifies prescriptionRepository
      ensures Valid()
      ensures prescriptionRepository.nextId == old(prescriptionRepository.nextId)
      ensures r.Fail? <==> Repo.FindByIdAndActiveTrue(old(prescriptionRepository.rows), id).None?
      ensures r.Fail? ==> r.error == NotFound(PrescriptionKind, id) && prescriptionRepository.rows == old(prescriptionRepository.rows)
      ensures r.Ok? ==> var p := Reassigned(old(prescriptionRepository.rows)[id], prescriptionData);
              && prescriptionRepository.rows == old(prescriptionRepository.rows)[id := p] && r.value == p
    {
      var existing := Repo.FindByIdAndActiveTrue(prescriptionRepository.rows, id);
      if existing.None? {
        return Fail(NotFound(PrescriptionKind, id));
      }
      var saved := prescriptionRepository.Save(Reassigned(existing.value, prescriptionData));
      return Ok(saved);
    }

    /** `deletePrescription(id)`: the soft delete of an active
        prescription; not found otherwise. */
    method DeletePrescription(id: int) returns (r: Result<(), Failure>)
      requires Valid()
      modifies prescriptionRepository
      ensures Valid()
      ensures prescriptionRepository.nextId == old(prescriptionRepository.nextId)
      ensures var (deleted, rows) := Jpa.SoftDelete(old(prescriptionRepository.rows), id, Repo.IsActive, Deactivated);
              && prescriptionRepository.rows == rows
              && (r.Fail? <==> !deleted)
              && (r.Fail? ==> r.error == NotFound(PrescriptionKind, id))
    {
      var prescription := Repo.FindByIdAndActiveTrue(prescriptionRepository.rows, id);
      if prescription.None? {
        return Fail(NotFound(PrescriptionKind, id));
      }
      var saved := prescriptionRepository.Save(Deactivated(prescription.value));
      return Ok(());
    }

    /** `getPrescriptionMedications(prescriptionId)`: not found without an
        active prescription, otherwise always the empty list. */
    function GetPrescriptionMedications(prescriptionId: int): (r: Result<seq<Medication>, Failure>)
      reads this, prescriptionRepository
      ensures r.Fail? <==> GetPrescriptionById(prescriptionId).None?
      ensures r.Fail? ==> r.error == NotFound(PrescriptionKind, prescriptionId)
      ensures r.Ok? ==> r.value == []
    {
      if Repo.FindByIdAndActiveTrue(prescriptionRepository.rows, prescriptionId).None? then
        Fail(NotFound(PrescriptionKind, prescriptionId))
      else Ok([])
    }

    /** `addMedicationToPrescription(prescriptionId, medicationId)`: the
        prescription is looked up and nothing is stored; the medication id
        is not read. */
    function AddMedicationToPrescription(prescriptionId: int, medicationId: int): (r: Result<(), Failure>)
      reads this, prescriptionRepository
      ensures r.Fail? <==> GetPrescriptionById(prescriptionId).None?
      ensures r.Fail? ==> r.error == NotFound(PrescriptionKind, prescriptionId)
    {
      if Repo.FindByIdAndActiveTrue(prescriptionRepository.rows, prescriptionId).None? then
        Fail(NotFound(PrescriptionKind, prescriptionId))
      else Ok(())
    }

    /** `removeMedicationFromPrescription(prescriptionId, medicationId)`:
        likewise a lookup and nothing more. */
    function RemoveMedicationFromPrescription(prescriptionId: int, medicationId: int): (r: Result<(), Failure>)
      reads this, prescriptionRepository
      ensures r == AddMedicationToPrescription(prescriptionId, medicationId)
    {
      if Repo.FindByIdAndActiveTrue(prescriptionRepository.rows, prescriptionId).None? then
        Fail(NotFound(PrescriptionKind, prescriptionId))
      else Ok(())
    }

    /** `getPrescriptionsByPatient(patientId, pageable)`: a page of the
        patient's active prescriptions; a null id finds none. */
    function GetPrescriptionsByPatient(patientId: Option<int>, pageable: Paging.PageRequest): (page: Paging.Page<Prescription>)
      reads this, prescriptionRepository
      ensures forall i :: 0 <= i < |page.content| ==> Repo.OfPatient(patientId, page.content[i])
      ensures page.totalElements == Repo.CountByPatientIdAndActiveTrue(prescriptionRepository.rows, patientId)
      ensures page == Paging.PageOf(Jpa.Ordered(prescriptionRepository.rows, (p: Prescription) => Repo.OfPatient(patientId, p), pageable.sort), pageable)
    {
      Repo.FindByPatientIdAndIsActiveTrue(prescriptionRepository.rows, patientId, pageable)
    }

    /** `existsPrescription(id)`. */
    function ExistsPrescription(id: int): (r: bool)
      reads this, prescriptionRepository
      ensures r <==> GetPrescriptionById(id).Some?
    {
      Repo.ExistsByIdAndIsActiveTrue(prescriptionRepository.rows, id)
    }
  }
}
