/** `com.example.patients.repository.PrescriptionRepository`: its JPQL
    queries as filters over the prescription table. `p.patient.id =
    :patientId` is an inner join, so a prescription without a patient, or a
    null patient id, matches nothing. The `IsActive` variants kept for
    backward compatibility run the same queries as their `Active` twins. */
module ExamplePrescriptionRepository {
  import opened Wrappers
  import opened ClinicaDomain
  import RowOrder
  import Paging
  import Jpa

  /** `p.active = true`. */
  predicate IsActive(p: Prescription) {
    p.active
  }

  /** `p.patient.id = :patientId AND p.active = true`. */
  predicate OfPatient(patientId: Option<int>, p: Prescription) {
    p.active && patientId.Some? && p.patient.Some? && p.patient.value.id == patientId
  }

  /** `findByIdAndActiveTrue(id)`: present exactly for an active row. */
  function FindByIdAndActiveTrue(rows: map<int, Prescription>, id: int): (r: Option<Prescription>)
    ensures r.Some? <==> id in rows && rows[id].active
    ensures r.Some? ==> r.value == rows[id]
  {
    if id in rows && rows[id].active then Some(rows[id]) else None
  }

  /** `findByActiveTrue(pageable)`: a page of the active prescriptions. */
  function FindByActiveTrue(rows: map<int, Prescription>, pageable: Paging.PageRequest): (page: Paging.Page<Prescription>)
    ensures page.totalElements == |set k | k in rows && rows[k].active|
    ensures forall i :: 0 <= i < |page.content| ==> page.content[i].active
    ensures page == Paging.PageOf(Jpa.Ordered(rows, IsActive, pageable.sort), pageable)
  {
    assert RowOrder.Select(rows, IsActive) == set k | k in rows && rows[k].active;
    Jpa.PagedQuery(rows, IsActive, pageable)
  }

  /** `findByPatientIdAndActiveTrue(patientId, pageable)`. */
  function FindByPatientIdAndActiveTruePage(rows: map<int, Prescription>, patientId: Option<int>, pageable: Paging.PageRequest)
    : (page: Paging.Page<Prescription>)
    ensures page.totalElements == CountByPatientIdAndActiveTrue(rows, patientId)
    ensures forall i :: 0 <= i < |page.content| ==> OfPatient(patientId, page.content[i])
    ensures page == Paging.PageOf(Jpa.Ordered(rows, (p: Prescription) => OfPatient(patientId, p), pageable.sort), pageable)
  {
    Jpa.PagedQuery(rows, (p: Prescription) => OfPatient(patientId, p), pageable)
  }

  /** `findByPatientIdAndActiveTrue(patientId)`, the list version: the
      patient's active prescriptions, each once. */
  function FindByPatientIdAndActiveTrue(rows: map<int, Prescription>, patientId: Option<int>): (r: seq<Prescription>)
    ensures |r| == CountByPatientIdAndActiveTrue(rows, patientId)
    ensures forall i :: 0 <= i < |r| ==> OfPatient(patientId, r[i])
    ensures forall k :: k in rows && OfPatient(patientId, rows[k]) ==> rows[k] in r
  {
    RowOrder.Query(rows, (p: Prescription) => OfPatient(patientId, p))
  }

  /** `countByPatientIdAndActiveTrue(patientId)`. */
  function CountByPatientIdAndActiveTrue(rows: map<int, Prescription>, patientId: Option<int>): (n: nat)
    ensures n == |set k | k in rows && OfPatient(patientId, rows[k])|
  {
    var ids := RowOrder.Select(rows, (p: Prescription) => OfPatient(patientId, p));
    assert ids == set k | k in rows && OfPatient(patientId, rows[k]);
    |ids|
  }

  /** A null patient id finds and counts nothing. */
  lemma {:induction false} NullPatientFindsNothing(rows: map<int, Prescription>, pageable: Paging.PageRequest)
    ensures FindByPatientIdAndActiveTrue(rows, None) == []
    ensures CountByPatientIdAndActiveTrue(rows, None) == 0
    ensures FindByPatientIdAndActiveTruePage(rows, None, pageable).content == []
  {
    assert (set k | k in rows && OfPatient(None, rows[k])) == {};
  }

  /** The prescriptions of two different patients are disjoint. */
  lemma {:induction false} PatientsDoNotShare(rows: map<int, Prescription>, a: int, b: int)
    requires a != b
    ensures forall k :: k in rows ==> !(OfPatient(Some(a), rows[k]) && OfPatient(Some(b), rows[k]))
  {
  }

  /** The join row has a medication: `JOIN p.medications m`. */
  predicate HasLinks(p: Prescription) {
    p.medications.Some? && |p.medications.value| > 0
  }

  /** `findPrescriptionsWithMedicationsAndActiveTrue(pageable)`: a page of
      the active prescriptions with at least one join row, active or not,
      each once. */
  function FindPrescriptionsWithMedicationsAndActiveTrue(rows: map<int, Prescription>, pageable: Paging.PageRequest)
    : (page: Paging.Page<Prescription>)
    ensures forall i :: 0 <= i < |page.content| ==> page.content[i].active && HasLinks(page.content[i])
    ensures page.totalElements == |set k | k in rows && rows[k].active && HasLinks(rows[k])|
    ensures page == Paging.PageOf(Jpa.Ordered(rows, (p: Prescription) => p.active && HasLinks(p), pageable.sort), pageable)
  {
    var keep := (p: Prescription) => p.active && HasLinks(p);
    assert RowOrder.Select(rows, keep) == set k | k in rows && rows[k].active && HasLinks(rows[k]);
    Jpa.PagedQuery(rows, keep, pageable)
  }

  /** `JOIN p.medications m WHERE m.id = :medicationId`, as written: `m` is
      a join row, so its id is the join row's own id, not the medication's. */
  predicate HasLinkWithId(p: Prescription, medicationId: int) {
    p.active && p.medications.Some? &&
    exists i :: 0 <= i < |p.medications.value| && p.medications.value[i].id == Some(medicationId)
  }

  /** `findByMedicationIdAndActiveTrue(medicationId)` as written; `SELECT
      DISTINCT` lists each prescription once. */
  function FindByMedicationIdAndActiveTrueAsWritten(rows: map<int, Prescription>, medicationId: int): (r: seq<Prescription>)
    ensures forall i :: 0 <= i < |r| ==> HasLinkWithId(r[i], medicationId)
    ensures forall k :: k in rows && HasLinkWithId(rows[k], medicationId) ==> rows[k] in r
    ensures |r| == |set k | k in rows && HasLinkWithId(rows[k], medicationId)|
  {
    var keep := (p: Prescription) => HasLinkWithId(p, medicationId);
    assert RowOrder.Select(rows, keep) == set k | k in rows && HasLinkWithId(rows[k], medicationId);
    RowOrder.Query(rows, keep)
  }

  /** The query as its name and comment mean it: a join row for that
      medication, `m.medication.id = :medicationId`. */
  predicate HasLinkToMedication(p: Prescription, medicationId: int) {
    p.active && p.medications.Some? &&
    exists i :: 0 <= i < |p.medications.value| && p.medications.value[i].medication == medicationId
  }

  /** `findByMedicationIdAndActiveTrue(medicationId)`, corrected: exactly
      the active prescriptions that list the medication. */
  function FindByMedicationIdAndActiveTrue(rows: map<int, Prescription>, medicationId: int): (r: seq<Prescription>)
    ensures forall i :: 0 <= i < |r| ==> HasLinkToMedication(r[i], medicationId)
    ensures forall k :: k in rows && HasLinkToMedication(rows[k], medicationId) ==> rows[k] in r
    ensures |r| == |set k | k in rows && HasLinkToMedication(rows[k], medicationId)|
  {
    var keep := (p: Prescription) => HasLinkToMedication(p, medicationId);
    assert RowOrder.Select(rows, keep) == set k | k in rows && HasLinkToMedication(rows[k], medicationId);
    RowOrder.Query(rows, keep)
  }

  /** An active prescription holding medication 3 on join row 7: as written
      the query for medication 3 misses it and the query for medication 7,
      which the prescription does not list, finds it. */
  lemma JoinRowIdIsNotMedicationId()
    ensures var link := Link(Some(7), 3, None, None, None, None, None, true, None, None);
            var p := NewPrescription.(id := Some(1), active := true, medications := Some([link]));
            var rows := map[1 := p];
            && FindByMedicationIdAndActiveTrueAsWritten(rows, 3) == []
            && p in FindByMedicationIdAndActiveTrueAsWritten(rows, 7)
            && p in FindByMedicationIdAndActiveTrue(rows, 3)
            && FindByMedicationIdAndActiveTrue(rows, 7) == []
  {
    var link := Link(Some(7), 3, None, None, None, None, None, true, None, None);
    var p := NewPrescription.(id := Some(1), active := true, medications := Some([link]));
    var rows := map[1 := p];
    assert p.medications.value[0] == link;
    assert HasLinkWithId(p, 7) && HasLinkToMedication(p, 3);
    assert rows[1] == p;
    assert RowOrder.Select(rows, (q: Prescription) => HasLinkWithId(q, 3)) == {};
    assert RowOrder.Select(rows, (q: Prescription) => HasLinkToMedication(q, 7)) == {};
  }

  /** `findByPatientIdAndIsActiveTrue(patientId, pageable)`. */
  function FindByPatientIdAndIsActiveTrue(rows: map<int, Prescription>, patientId: Option<int>, pageable: Paging.PageRequest)
    : (page: Paging.Page<Prescription>)
    ensures page.totalElements == CountByPatientIdAndActiveTrue(rows, patientId)
    ensures forall i :: 0 <= i < |page.content| ==> OfPatient(patientId, page.content[i])
    ensures page == Paging.PageOf(Jpa.Ordered(rows, (p: Prescription) => OfPatient(patientId, p), pageable.sort), pageable)
  {
    FindByPatientIdAndActiveTruePage(rows, patientId, pageable)
  }

  /** `findByIdAndIsActiveTrue(id)`. */
  function FindByIdAndIsActiveTrue(rows: map<int, Prescription>, id: int): (r: Option<Prescription>)
    ensures r.Some? <==> id in rows && rows[id].active
    ensures r.Some? ==> r.value == rows[id]
  {
    FindByIdAndActiveTrue(rows, id)
  }

  /** `existsByIdAndIsActiveTrue(id)`: `COUNT(p) > 0` over the same rows. */
  function ExistsByIdAndIsActiveTrue(rows: map<int, Prescription>, id: int): (r: bool)
    ensures r <==> FindByIdAndActiveTrue(rows, id).Some?
  {
    var matching := set k | k in rows && k == id && rows[k].active;
    assert matching == if id in rows && rows[id].active then {id} else {};
    |matching| > 0
  }
}
