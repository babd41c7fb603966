/** `com.fiuni.patients.repository.PatientRepository`: its JPQL queries as
    filters over the patient table. The two search queries declare a term
    but their WHERE clause never reads it. */
module FiuniPatientRepository {
  import opened Wrappers
  import opened ClinicaDomain
  import RowOrder
  import Paging
  import Jpa

  /** `p.isActive = true`. */
  predicate IsActive(p: Patient) {
    p.active
  }

  /** `findAllActive(pageable)`: a page of the active patients. */
  function FindAllActive(rows: map<int, Patient>, pageable: Paging.PageRequest): (page: Paging.Page<Patient>)
    ensures page.totalElements == CountActivePatients(rows)
    ensures forall i :: 0 <= i < |page.content| ==> page.content[i].active
    ensures page == Paging.PageOf(Jpa.Ordered(rows, IsActive, pageable.sort), pageable)
  {
    Jpa.PagedQuery(rows, IsActive, pageable)
  }

  /** `findByIdAndActiveTrue(id)`: present exactly for an active row. */
  function FindByIdAndActiveTrue(rows: map<int, Patient>, id: int): (r: Option<Patient>)
    ensures r.Some? <==> id in rows && rows[id].active
    ensures r.Some? ==> r.value == rows[id]
  {
    if id in rows && rows[id].active then Some(rows[id]) else None
  }

  /** `searchPatients(searchTerm)`: every active patient, whatever the term. */
  function SearchPatients(rows: map<int, Patient>, searchTerm: Option<string>): (r: seq<Patient>)
    ensures |r| == CountActivePatients(rows)
    ensures forall i :: 0 <= i < |r| ==> r[i].active
    ensures forall k :: k in rows && rows[k].active ==> rows[k] in r
  {
    RowOrder.Query(rows, IsActive)
  }

  /** `countActivePatients()`: the number of active rows. */
  function CountActivePatients(rows: map<int, Patient>): (n: nat)
    ensures n == |set k | k in rows && rows[k].active|
  {
    var ids := RowOrder.Select(rows, IsActive);
    assert ids == set k | k in rows && rows[k].active;
    |ids|
  }

  /** `searchByTerm(searchTerm, pageable)`: a page of the active patients,
      whatever the term. */
  function SearchByTerm(rows: map<int, Patient>, searchTerm: Option<string>, pageable: Paging.PageRequest)
    : (page: Paging.Page<Patient>)
    ensures page == FindAllActive(rows, pageable)
  {
    Jpa.PagedQuery(rows, IsActive, pageable)
  }

  /** The two searches return the same rows for any two terms. */
  lemma {:induction false} SearchIgnoresTerm(rows: map<int, Patient>, t1: Option<string>, t2: Option<string>, pageable: Paging.PageRequest)
    ensures SearchPatients(rows, t1) == SearchPatients(rows, t2)
    ensures SearchByTerm(rows, t1, pageable) == SearchByTerm(rows, t2, pageable)
  {
  }
}
