/** `com.fiuni.patients.repository.MedicationRepository`: its JPQL queries as
    filters over the medication table. A term or criterion that is null or
    exactly '' imposes nothing; otherwise it must occur, ignoring case, in a
    non-null column. */
module FiuniMedicationRepository {
  import opened Wrappers
  import opened ClinicaDomain
  import JavaText
  import RowOrder
  import Paging
  import Jpa

  /** `m.active = true`. */
  predicate IsActive(m: Medication) {
    m.active
  }

  /** `findAllActive(pageable)`: a page of the active medications. */
  function FindAllActive(rows: map<int, Medication>, pageable: Paging.PageRequest): (page: Paging.Page<Medication>)
    ensures page.totalElements == CountActiveMedications(rows)
    ensures forall i :: 0 <= i < |page.content| ==> page.content[i].active
    ensures page == Paging.PageOf(Jpa.Ordered(rows, IsActive, pageable.sort), pageable)
  {
    Jpa.PagedQuery(rows, IsActive, pageable)
  }

  /** `findByIdAndActiveTrue(id)`: present exactly for an active row. */
  function FindByIdAndActiveTrue(rows: map<int, Medication>, id: int): (r: Option<Medication>)
    ensures r.Some? <==> id in rows && rows[id].active
    ensures r.Some? ==> r.value == rows[id]
  {
    if id in rows && rows[id].active then Some(rows[id]) else None
  }

  /** `:p IS NULL OR :p = ''`. */
  predicate Unset(p: Option<string>) {
    p.None? || p.value == []
  }

  /** `UPPER(column) LIKE UPPER(CONCAT('%', :p, '%'))`. */
  predicate Like(column: Option<string>, p: string) {
    JavaText.ContainsIgnoringCase(column, p)
  }

  /** The WHERE clause of `searchMedications`: active, and the term unset or
      found in one of five columns. */
  predicate MatchesTerm(searchTerm: Option<string>, m: Medication) {
    && m.active
    && (|| Unset(searchTerm)
        || Like(m.medicationName, searchTerm.value)
        || Like(m.genericName, searchTerm.value)
        || Like(m.medicationType, searchTerm.value)
        || Like(m.manufacturer, searchTerm.value)
        || Like(m.description, searchTerm.value))
  }

  /** `searchMedications(searchTerm)`. */
  function SearchMedications(rows: map<int, Medication>, searchTerm: Option<string>): (r: seq<Medication>)
    ensures forall i :: 0 <= i < |r| ==> MatchesTerm(searchTerm, r[i])
    ensures forall k :: k in rows && MatchesTerm(searchTerm, rows[k]) ==> rows[k] in r
    ensures |r| == |set k | k in rows && MatchesTerm(searchTerm, rows[k])|
  {
    var keep := (m: Medication) => MatchesTerm(searchTerm, m);
    assert RowOrder.Select(rows, keep) == set k | k in rows && MatchesTerm(searchTerm, rows[k]);
    RowOrder.Query(rows, keep)
  }

  /** A null or empty term keeps every active medication, and a non-empty
      one keeps exactly those with the term in one of the five columns. */
  lemma {:induction false} SearchMedicationsKeeps(searchTerm: Option<string>, m: Medication)
    ensures Unset(searchTerm) ==> (MatchesTerm(searchTerm, m) <==> m.active)
    ensures !Unset(searchTerm) ==> (MatchesTerm(searchTerm, m) <==>
              m.active && exists c :: c in [m.medicationName, m.genericName, m.medicationType, m.manufacturer, m.description] &&
                                      Like(c, searchTerm.value))
  {
    if !Unset(searchTerm) {
      var cs := [m.medicationName, m.genericName, m.medicationType, m.manufacturer, m.description];
      if MatchesTerm(searchTerm, m) {
        if Like(m.medicationName, searchTerm.value) { assert cs[0] in cs; }
        else if Like(m.genericName, searchTerm.value) { assert cs[1] in cs; }
        else if Like(m.medicationType, searchTerm.value) { assert cs[2] in cs; }
        else if Like(m.manufacturer, searchTerm.value) { assert cs[3] in cs; }
        else { assert cs[4] in cs; }
      }
    }
  }

  /** The optional criteria of `searchMedicationsByCriteria`. */
  datatype Criteria = Criteria(name: Option<string>, genericName: Option<string>,
                               medicationType: Option<string>, manufacturer: Option<string>)

  /** One criterion: unset, or found in its column. */
  predicate Meets(criterion: Option<string>, column: Option<string>) {
    Unset(criterion) || Like(column, criterion.value)
  }

  /** The WHERE clause of `searchMedicationsByCriteria`: active, and every
      criterion met. */
  predicate MatchesCriteria(c: Criteria, m: Medication) {
    && m.active
    && Meets(c.name, m.medicationName)
    && Meets(c.genericName, m.genericName)
    && Meets(c.medicationType, m.medicationType)
    && Meets(c.manufacturer, m.manufacturer)
  }

  /** `searchMedicationsByCriteria(name, genericName, medicationType, manufacturer)`. */
  function SearchMedicationsByCriteria(rows: map<int, Medication>, c: Criteria): (r: seq<Medication>)
    ensures forall i :: 0 <= i < |r| ==> MatchesCriteria(c, r[i])
    ensures forall k :: k in rows && MatchesCriteria(c, rows[k]) ==> rows[k] in r
    ensures |r| == |CriteriaIds(rows, c)|
  {
    var keep := (m: Medication) => MatchesCriteria(c, m);
    assert RowOrder.Select(rows, keep) == CriteriaIds(rows, c);
    RowOrder.Query(rows, keep)
  }

  /** The ids `searchMedicationsByCriteria` keeps. */
  function CriteriaIds(rows: map<int, Medication>, c: Criteria): (ids: set<int>)
    ensures forall k :: k in ids <==> k in rows && MatchesCriteria(c, rows[k])
  {
    set k | k in rows && MatchesCriteria(c, rows[k])
  }

  /** `narrower` sets at least the criteria `wider` sets, each to the same value. */
  predicate Refines(narrower: Criteria, wider: Criteria) {
    && (Unset(wider.name) || narrower.name == wider.name)
    && (Unset(wider.genericName) || narrower.genericName == wider.genericName)
    && (Unset(wider.medicationType) || narrower.medicationType == wider.medicationType)
    && (Unset(wider.manufacturer) || narrower.manufacturer == wider.manufacturer)
  }

  /** Setting more criteria never enlarges the result. */
  lemma {:induction false} MoreCriteriaNarrow(rows: map<int, Medication>, narrower: Criteria, wider: Criteria)
    requires Refines(narrower, wider)
    ensures CriteriaIds(rows, narrower) <= CriteriaIds(rows, wider)
    ensures |SearchMedicationsByCriteria(rows, narrower)| <= |SearchMedicationsByCriteria(rows, wider)|
  {
    forall k | k in CriteriaIds(rows, narrower) ensures k in CriteriaIds(rows, wider) {
      assert MatchesCriteria(narrower, rows[k]);
    }
    SubsetCard(CriteriaIds(rows, narrower), CriteriaIds(rows, wider));
  }

  lemma SubsetCard(a: set<int>, b: set<int>)
    requires a <= b
    ensures |a| <= |b|
  {
    assert b == a + (b - a);
  }

  /** With every criterion null or empty the search is every active
      medication, the same list in the same order. */
  lemma {:induction false} NoCriteriaIsAllActive(rows: map<int, Medication>, c: Criteria)
    requires Unset(c.name) && Unset(c.genericName) && Unset(c.medicationType) && Unset(c.manufacturer)
    ensures forall m :: MatchesCriteria(c, m) <==> m.active
    ensures CriteriaIds(rows, c) == RowOrder.Select(rows, IsActive)
    ensures SearchMedicationsByCriteria(rows, c) == RowOrder.Query(rows, IsActive)
  {
    var keep := (m: Medication) => MatchesCriteria(c, m);
    assert RowOrder.Select(rows, keep) == RowOrder.Select(rows, IsActive);
  }

  /** `countActiveMedications()`: the number of active rows. */
  function CountActiveMedications(rows: map<int, Medication>): (n: nat)
    ensures n == |set k | k in rows && rows[k].active|
    ensures n == |SearchMedications(rows, None)|
  {
    var ids := RowOrder.Select(rows, IsActive);
    assert ids == set k | k in rows && rows[k].active;
    assert (set k | k in rows && MatchesTerm(None, rows[k])) == ids;
    |ids|
  }

  /** `searchByTerm(searchTerm, pageable)`: a page of the active
      medications, whatever the term. */
  function SearchByTerm(rows: map<int, Medication>, searchTerm: Option<string>, pageable: Paging.PageRequest)
    : (page: Paging.Page<Medication>)
    ensures page == FindAllActive(rows, pageable)
  {
    Jpa.PagedQuery(rows, IsActive, pageable)
  }
}
