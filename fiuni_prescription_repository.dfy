/** `com.fiuni.patients.repository.PrescriptionRepository`: its JPQL queries
    as filters over the prescription table. Every query keeps exactly the
    active rows: the ones by patient and by term declare a parameter their
    WHERE clause never reads. */
module FiuniPrescriptionRepository {
  import opened Wrappers
  import opened ClinicaDomain
  import RowOrder
  import Paging
  import Jpa

  /** `p.active = true`. */
  predicate IsActive(p: Prescription) {
    p.active
  }

  /** `findAllActive(pageable)`: a page of the active prescriptions. */
  function FindAllActive(rows: map<int, Prescription>, pageable: Paging.PageRequest): (page: Paging.Page<Prescription>)
    ensures page.totalElements == CountActivePrescriptions(rows)
    ensures forall i :: 0 <= i < |page.content| ==> page.content[i].active
    ensures page == Paging.PageOf(Jpa.Ordered(rows, IsActive, pageable.sort), pageable)
  {
    Jpa.PagedQuery(rows, IsActive, pageable)
  }

  /** `findByIdAndActiveTrue(id)`: present exactly for an active row. */
  function FindByIdAndActiveTrue(rows: map<int, Prescription>, id: int): (r: Option<Prescription>)
    ensures r.Some? <==> id in rows && rows[id].active
    ensures r.Some? ==> r.value == rows[id]
  {
    if id in rows && rows[id].active then Some(rows[id]) else None
  }

  /** `findByPatientId(patientId)`: every active prescription, the patient's
      or not. */
  function FindByPatientId(rows: map<int, Prescription>, patientId: Option<int>): (r: seq<Prescription>)
    ensures |r| == CountActivePrescriptions(rows)
    ensures forall i :: 0 <= i < |r| ==> r[i].active
    ensures forall k :: k in rows && rows[k].active ==> rows[k] in r
  {
    RowOrder.Query(rows, IsActive)
  }

  /** `findByPatientIdAndActiveTrue(patientId, pageable)`: a page of every
      active prescription, the patient's or not. */
  function FindByPatientIdAndActiveTrue(rows: map<int, Prescription>, patientId: Option<int>, pageable: Paging.PageRequest)
    : (page: Paging.Page<Prescription>)
    ensures page == FindAllActive(rows, pageable)
  {
    Jpa.PagedQuery(rows, IsActive, pageable)
  }

  /** `countActivePrescriptions()`: the number of active rows. */
  function CountActivePrescriptions(rows: map<int, Prescription>): (n: nat)
    ensures n == |set k | k in rows && rows[k].active|
  {
    var ids := RowOrder.Select(rows, IsActive);
    assert ids == set k | k in rows && rows[k].active;
    |ids|
  }

  /** `countByPatientId(patientId)`: the number of active rows, the
      patient's or not. */
  function CountByPatientId(rows: map<int, Prescription>, patientId: Option<int>): (n: nat)
    ensures n == CountActivePrescriptions(rows)
    ensures n == |FindByPatientId(rows, patientId)|
  {
    |RowOrder.Select(rows, IsActive)|
  }

  /** `searchByTerm(searchTerm, pageable)`: a page of the active
      prescriptions, whatever the term. */
  function SearchByTerm(rows: map<int, Prescription>, searchTerm: Option<string>, pageable: Paging.PageRequest)
    : (page: Paging.Page<Prescription>)
    ensures page == FindAllActive(rows, pageable)
  {
    Jpa.PagedQuery(rows, IsActive, pageable)
  }

  /** A prescription of another patient is counted and listed for this one. */
  lemma {:induction false} OtherPatientsRowsAreListed(rows: map<int, Prescription>, patientId: int, k: int)
    requires k in rows && rows[k].active
    requires rows[k].patient.Some? && rows[k].patient.value.id.Some? && rows[k].patient.value.id.value != patientId
    ensures rows[k] in FindByPatientId(rows, Some(patientId))
    ensures CountByPatientId(rows, Some(patientId)) >= 1
  {
    var s := set j | j in rows && rows[j].active;
    assert k in s;
  }
}
