/** `com.example.patients.repository.PatientRepository`: its JPQL queries as
    filters over the patient table. A JPQL comparison with a null parameter
    is never true, so a null email, name or gender finds nobody. */
module ExamplePatientRepository {
  import opened Wrappers
  import opened Failures
  import opened ClinicaDomain
  import JavaText
  import RowOrder
  import Paging
  import Jpa

  /** `p.isActive = true`. */
  predicate IsActive(p: Patient) {
    p.active
  }

  /** `findByIdAndIsActiveTrue(id)`: present exactly for an active row. */
  function FindByIdAndIsActiveTrue(rows: map<int, Patient>, id: int): (r: Option<Patient>)
    ensures r.Some? <==> id in rows && rows[id].active
    ensures r.Some? ==> r.value == rows[id]
  {
    if id in rows && rows[id].active then Some(rows[id]) else None
  }

  /** `findByIsActiveTrue(pageable)`: a page of the active patients. */
  function FindByIsActiveTrue(rows: map<int, Patient>, pageable: Paging.PageRequest): (page: Paging.Page<Patient>)
    ensures page.totalElements == |set k | k in rows && rows[k].active|
    ensures forall i :: 0 <= i < |page.content| ==> page.content[i].active
    ensures page == Paging.PageOf(Jpa.Ordered(rows, IsActive, pageable.sort), pageable)
  {
    assert RowOrder.Select(rows, IsActive) == set k | k in rows && rows[k].active;
    Jpa.PagedQuery(rows, IsActive, pageable)
  }

  /** `p.email = :email AND p.isActive = true`. */
  predicate HasEmail(email: Option<string>, p: Patient) {
    p.active && email.Some? && p.email == email
  }

  /** `findByEmailAndIsActiveTrue(email)`: empty when no active patient has
      the email, that patient when one does, and an
      `IncorrectResultSizeDataAccessException` when several do. */
  function FindByEmailAndIsActiveTrue(rows: map<int, Patient>, email: Option<string>): (r: Result<Option<Patient>, Failure>)
    ensures var ids := RowOrder.Select(rows, (p: Patient) => HasEmail(email, p));
            && (r == Ok(None) <==> ids == {})
            && (r.Fail? <==> |ids| > 1)
            && (r.Fail? ==> r.error == IncorrectResultSize)
            && (r.Ok? && r.value.Some? ==> exists k :: k in ids && rows[k] == r.value.value)
    ensures r.Ok? && r.value.Some? ==> HasEmail(email, r.value.value)
  {
    var ids := RowOrder.Select(rows, (p: Patient) => HasEmail(email, p));
    if |ids| == 0 then Ok(None)
    else if |ids| == 1 then Ok(Some(rows[RowOrder.MinOf(ids)]))
    else Fail(IncorrectResultSize)
  }

  /** No active patient ever has a null email as far as the lookup is
      concerned. */
  lemma {:induction false} NullEmailFindsNobody(rows: map<int, Patient>)
    ensures FindByEmailAndIsActiveTrue(rows, None) == Ok(None)
  {
    assert RowOrder.Select(rows, (p: Patient) => HasEmail(None, p)) == {};
  }

  /** Active emails are unique: no two active patients share a non-null
      email. */
  ghost predicate EmailsUnique(rows: map<int, Patient>) {
    forall j, k :: j in rows && k in rows && j != k && rows[j].active && rows[k].active && rows[j].email.Some? ==>
      rows[j].email != rows[k].email
  }

  /** While active emails are unique the lookup never throws. */
  lemma {:induction false} UniqueEmailsLookUp(rows: map<int, Patient>, email: Option<string>)
    requires EmailsUnique(rows)
    ensures FindByEmailAndIsActiveTrue(rows, email).Ok?
  {
    var ids := RowOrder.Select(rows, (p: Patient) => HasEmail(email, p));
    if |ids| > 1 {
      var j := RowOrder.SomeElement(ids);
      assert |ids - {j}| == |ids| - 1;
      var k := RowOrder.SomeElement(ids - {j});
      assert false;
    }
  }

  /** `LOWER(column) LIKE LOWER(CONCAT('%', :name, '%'))` on the first or
      the last name, for an active patient. */
  predicate NameMatches(name: Option<string>, p: Patient) {
    && p.active && name.Some?
    && (JavaText.ContainsIgnoringCaseLower(p.firstName, name.value) || JavaText.ContainsIgnoringCaseLower(p.lastName, name.value))
  }

  /** `findByNameContainingIgnoreCaseAndIsActiveTrue(name, pageable)`. */
  function FindByNameContainingIgnoreCaseAndIsActiveTrue(rows: map<int, Patient>, name: Option<string>, pageable: Paging.PageRequest)
    : (page: Paging.Page<Patient>)
    ensures page.totalElements == |RowOrder.Select(rows, (p: Patient) => NameMatches(name, p))|
    ensures forall i :: 0 <= i < |page.content| ==> NameMatches(name, page.content[i])
    ensures page == Paging.PageOf(Jpa.Ordered(rows, (p: Patient) => NameMatches(name, p), pageable.sort), pageable)
  {
    Jpa.PagedQuery(rows, (p: Patient) => NameMatches(name, p), pageable)
  }

  /** An empty name is found in every name that is not null. */
  lemma {:induction false} EmptyNameMatchesNamedPatients(p: Patient)
    requires p.active && p.firstName.Some?
    ensures NameMatches(Some([]), p)
  {
    JavaText.EmptyIsContained(JavaText.Lower(p.firstName.value));
  }

  /** `p.gender = :gender AND p.isActive = true`. */
  predicate HasGender(gender: Option<string>, p: Patient) {
    p.active && gender.Some? && p.gender == gender
  }

  /** `findByGenderAndIsActiveTrue(gender)`: each such patient once. */
  function FindByGenderAndIsActiveTrue(rows: map<int, Patient>, gender: Option<string>): (r: seq<Patient>)
    ensures forall i :: 0 <= i < |r| ==> r[i].active && r[i].gender == gender
    ensures forall k :: k in rows && HasGender(gender, rows[k]) ==> rows[k] in r
    ensures |r| == |set k | k in rows && HasGender(gender, rows[k])|
    ensures gender.None? ==> r == []
  {
    var keep := (p: Patient) => HasGender(gender, p);
    assert RowOrder.Select(rows, keep) == set k | k in rows && HasGender(gender, rows[k]);
    if gender.None? then
      assert RowOrder.Select(rows, keep) == {};
      RowOrder.Query(rows, keep)
    else RowOrder.Query(rows, keep)
  }

  /** The patient has a prescription: the inner join of `p.prescriptions`,
      whose rows point back at the patient, active or not. */
  predicate HasPrescription(prescriptions: map<int, Prescription>, id: Option<int>) {
    id.Some? && exists k :: k in prescriptions && prescriptions[k].patient == Some(PatientRef(id))
  }

  /** `findPatientsWithPrescriptionsAndIsActiveTrue(pageable)`: a page of
      the active patients with at least one prescription, each once. */
  function FindPatientsWithPrescriptionsAndIsActiveTrue(rows: map<int, Patient>, prescriptions: map<int, Prescription>, pageable: Paging.PageRequest)
    : (page: Paging.Page<Patient>)
    ensures forall i :: 0 <= i < |page.content| ==> page.content[i].active && HasPrescription(prescriptions, page.content[i].id)
    ensures page.totalElements == |set k | k in rows && rows[k].active && HasPrescription(prescriptions, rows[k].id)|
    ensures page == Paging.PageOf(Jpa.Ordered(rows, (p: Patient) => p.active && HasPrescription(prescriptions, p.id), pageable.sort), pageable)
  {
    var keep := (p: Patient) => p.active && HasPrescription(prescriptions, p.id);
    assert RowOrder.Select(rows, keep) == set k | k in rows && rows[k].active && HasPrescription(prescriptions, rows[k].id);
    Jpa.PagedQuery(rows, keep, pageable)
  }

  /** `existsByIdAndActiveTrue(id)`. */
  function ExistsByIdAndActiveTrue(rows: map<int, Patient>, id: int): (r: bool)
    ensures r <==> FindByIdAndIsActiveTrue(rows, id).Some?
  {
    var matching := set k | k in rows && k == id && rows[k].active;
    assert matching == if id in rows && rows[id].active then {id} else {};
    |matching| > 0
  }
}
