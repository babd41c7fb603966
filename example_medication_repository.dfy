/** `com.example.patients.repository.MedicationRepository`: Spring Data
    derived queries and one JPQL search as filters over the medication
    table. A derived `...ContainingIgnoreCase` query compares
    `UPPER(column) LIKE UPPER('%term%')` with the term's wildcards escaped;
    a derived equality on a null argument becomes `IS NULL`; the JPQL
    search folds with `LOWER` and orders by id, largest first. */
module ExampleMedicationRepository {
  import opened Wrappers
  import opened ClinicaDomain
  import JavaText
  import RowOrder
  import Paging
  import Jpa

  /** `active = true`. */
  predicate IsActive(m: Medication) {
    m.active
  }

  /** `findByActiveTrue(pageable)`: a page of the active medications. */
  function FindByActiveTruePage(rows: map<int, Medication>, pageable: Paging.PageRequest): (page: Paging.Page<Medication>)
    ensures page.totalElements == CountByActiveTrue(rows)
    ensures forall i :: 0 <= i < |page.content| ==> page.content[i].active
    ensures page == Paging.PageOf(Jpa.Ordered(rows, IsActive, pageable.sort), pageable)
  {
    Jpa.PagedQuery(rows, IsActive, pageable)
  }

  /** `findByIdAndActiveTrue(id)`: present exactly for an active row. */
  function FindByIdAndActiveTrue(rows: map<int, Medication>, id: int): (r: Option<Medication>)
    ensures r.Some? <==> id in rows && rows[id].active
    ensures r.Some? ==> r.value == rows[id]
  {
    if id in rows && rows[id].active then Some(rows[id]) else None
  }

  /** `column ContainingIgnoreCase term`: never true of a null term or a
      null column. */
  predicate ContainingIgnoreCase(column: Option<string>, term: Option<string>) {
    term.Some? && JavaText.ContainsIgnoringCase(column, term.value)
  }

  /** `findByMedicationNameContainingIgnoreCaseAndActiveTrue(name, pageable)`. */
  function FindByMedicationNameContainingIgnoreCaseAndActiveTrue(rows: map<int, Medication>, name: Option<string>, pageable: Paging.PageRequest)
    : (page: Paging.Page<Medication>)
    ensures forall i :: 0 <= i < |page.content| ==>
              page.content[i].active && ContainingIgnoreCase(page.content[i].medicationName, name)
    ensures page.totalElements == |set k | k in rows && rows[k].active && ContainingIgnoreCase(rows[k].medicationName, name)|
    ensures page == Paging.PageOf(Jpa.Ordered(rows, (m: Medication) => m.active && ContainingIgnoreCase(m.medicationName, name), pageable.sort), pageable)
  {
    var keep := (m: Medication) => m.active && ContainingIgnoreCase(m.medicationName, name);
    assert RowOrder.Select(rows, keep) == set k | k in rows && rows[k].active && ContainingIgnoreCase(rows[k].medicationName, name);
    Jpa.PagedQuery(rows, keep, pageable)
  }

  /** `findByManufacturerContainingIgnoreCaseAndActiveTrue(manufacturer, pageable)`. */
  function FindByManufacturerContainingIgnoreCaseAndActiveTrue(rows: map<int, Medication>, manufacturer: Option<string>, pageable: Paging.PageRequest)
    : (page: Paging.Page<Medication>)
    ensures forall i :: 0 <= i < |page.content| ==>
              page.content[i].active && ContainingIgnoreCase(page.content[i].manufacturer, manufacturer)
    ensures page.totalElements == |set k | k in rows && rows[k].active && ContainingIgnoreCase(rows[k].manufacturer, manufacturer)|
    ensures page == Paging.PageOf(Jpa.Ordered(rows, (m: Medication) => m.active && ContainingIgnoreCase(m.manufacturer, manufacturer), pageable.sort), pageable)
  {
    var keep := (m: Medication) => m.active && ContainingIgnoreCase(m.manufacturer, manufacturer);
    assert RowOrder.Select(rows, keep) == set k | k in rows && rows[k].active && ContainingIgnoreCase(rows[k].manufacturer, manufacturer);
    Jpa.PagedQuery(rows, keep, pageable)
  }

  /** `findByGenericNameContainingIgnoreCaseAndActiveTrue(genericName, pageable)`. */
  function FindByGenericNameContainingIgnoreCaseAndActiveTrue(rows: map<int, Medication>, genericName: Option<string>, pageable: Paging.PageRequest)
    : (page: Paging.Page<Medication>)
    ensures forall i :: 0 <= i < |page.content| ==>
              page.content[i].active && ContainingIgnoreCase(page.content[i].genericName, genericName)
    ensures page.totalElements == |set k | k in rows && rows[k].active && ContainingIgnoreCase(rows[k].genericName, genericName)|
    ensures page == Paging.PageOf(Jpa.Ordered(rows, (m: Medication) => m.active && ContainingIgnoreCase(m.genericName, genericName), pageable.sort), pageable)
  {
    var keep := (m: Medication) => m.active && ContainingIgnoreCase(m.genericName, genericName);
    assert RowOrder.Select(rows, keep) == set k | k in rows && rows[k].active && ContainingIgnoreCase(rows[k].genericName, genericName);
    Jpa.PagedQuery(rows, keep, pageable)
  }

  /** `findByMedicationTypeAndActiveTrue(medicationType, pageable)`: an exact
      match, so a null type finds the active medications without one. */
  function FindByMedicationTypeAndActiveTrue(rows: map<int, Medication>, medicationType: Option<string>, pageable: Paging.PageRequest)
    : (page: Paging.Page<Medication>)
    ensures forall i :: 0 <= i < |page.content| ==>
              page.content[i].active && page.content[i].medicationType == medicationType
    ensures page.totalElements == |set k | k in rows && rows[k].active && rows[k].medicationType == medicationType|
    ensures page == Paging.PageOf(Jpa.Ordered(rows, (m: Medication) => m.active && m.medicationType == medicationType, pageable.sort), pageable)
  {
    var keep := (m: Medication) => m.active && m.medicationType == medicationType;
    assert RowOrder.Select(rows, keep) == set k | k in rows && rows[k].active && rows[k].medicationType == medicationType;
    Jpa.PagedQuery(rows, keep, pageable)
  }

  /** `existsByIdAndActiveTrue(id)`. */
  function ExistsByIdAndActiveTrue(rows: map<int, Medication>, id: int): (r: bool)
    ensures r <==> FindByIdAndActiveTrue(rows, id).Some?
  {
    id in RowOrder.Select(rows, IsActive)
  }

  /** The WHERE clause of `searchByMedicationNameOrGenericName`. */
  predicate NameOrGenericMatches(searchTerm: Option<string>, m: Medication) {
    && m.active && searchTerm.Some?
    && (JavaText.ContainsIgnoringCaseLower(m.medicationName, searchTerm.value)
        || JavaText.ContainsIgnoringCaseLower(m.genericName, searchTerm.value))
  }

  /** `searchByMedicationNameOrGenericName(searchTerm, pageable)`: the
      matching rows, largest id first, then the page. */
  function SearchByMedicationNameOrGenericName(rows: map<int, Medication>, searchTerm: Option<string>, pageable: Paging.PageRequest)
    : (page: Paging.Page<Medication>)
    ensures page.totalElements == |RowOrder.Select(rows, (m: Medication) => NameOrGenericMatches(searchTerm, m))|
    ensures |page.content| <= pageable.size
    ensures forall i :: 0 <= i < |page.content| ==> NameOrGenericMatches(searchTerm, page.content[i])
    ensures page == Paging.PageOf(RowOrder.QueryIdDescending(rows, (m: Medication) => NameOrGenericMatches(searchTerm, m)), pageable)
  {
    Jpa.PagedQueryIdDescending(rows, (m: Medication) => NameOrGenericMatches(searchTerm, m), pageable)
  }

  /** `UPPER` and `LOWER` identify the same pairs of characters. */
  lemma {:induction false} FoldsAgree(a: char, b: char)
    ensures JavaText.UpperChar(a) == JavaText.UpperChar(b) <==> JavaText.LowerChar(a) == JavaText.LowerChar(b)
  {
  }

  /** An `UPPER` substring test and a `LOWER` one agree. */
  lemma {:induction false} UpperContainsIffLower(s: string, t: string)
    ensures JavaText.Contains(JavaText.Upper(s), JavaText.Upper(t)) <==> JavaText.Contains(JavaText.Lower(s), JavaText.Lower(t))
  {
    var us, ut, ls, lt := JavaText.Upper(s), JavaText.Upper(t), JavaText.Lower(s), JavaText.Lower(t);
    forall i | 0 <= i <= |s| - |t|
      ensures JavaText.OccursAt(us, ut, i) <==> JavaText.OccursAt(ls, lt, i)
    {
      forall j | 0 <= j < |t| ensures us[i + j] == ut[j] <==> ls[i + j] == lt[j] {
        FoldsAgree(s[i + j], t[j]);
      }
      assert JavaText.OccursAt(us, ut, i) <==> forall j :: 0 <= j < |t| ==> us[i + j] == ut[j] by {
        var window := us[i..i + |t|];
        assert forall j :: 0 <= j < |t| ==> window[j] == us[i + j];
      }
      assert JavaText.OccursAt(ls, lt, i) <==> forall j :: 0 <= j < |t| ==> ls[i + j] == lt[j] by {
        var window := ls[i..i + |t|];
        assert forall j :: 0 <= j < |t| ==> window[j] == ls[i + j];
      }
    }
  }

  /** The name-or-generic-name search finds exactly the active medications
      the name search or the generic-name search finds. */
  lemma {:induction false} SearchIsUnionOfNameSearches(searchTerm: Option<string>, m: Medication)
    ensures NameOrGenericMatches(searchTerm, m) <==>
              m.active && (ContainingIgnoreCase(m.medicationName, searchTerm) || ContainingIgnoreCase(m.genericName, searchTerm))
  {
    if searchTerm.Some? {
      if m.medicationName.Some? {
        UpperContainsIffLower(m.medicationName.value, searchTerm.value);
      }
      if m.genericName.Some? {
        UpperContainsIffLower(m.genericName.value, searchTerm.value);
      }
    }
  }

  /** The search lists the newest medication first: entry `i` of the page
      is the match with the `i`-th largest id from the page's start, and the
      page holds every match left there, up to its size. */
  lemma {:induction false} SearchNewestFirst(rows: map<int, Medication>, searchTerm: Option<string>, pageable: Paging.PageRequest,
                                             ids: seq<int>, lo: nat)
    requires ids == RowOrder.Descending(RowOrder.Select(rows, (m: Medication) => NameOrGenericMatches(searchTerm, m)))
    requires lo == Paging.Start(|ids|, pageable)
    ensures |SearchByMedicationNameOrGenericName(rows, searchTerm, pageable).content| == Paging.End(|ids|, pageable) - lo
    ensures forall i :: 0 <= i < Paging.End(|ids|, pageable) - lo ==>
              ids[lo + i] in rows && SearchByMedicationNameOrGenericName(rows, searchTerm, pageable).content[i] == rows[ids[lo + i]]
    ensures forall i, j :: 0 <= i < j < |ids| ==> ids[i] > ids[j]
  {
    Jpa.PagedQueryIdDescendingEntries(rows, (m: Medication) => NameOrGenericMatches(searchTerm, m), pageable, ids, lo);
  }

  /** `countByActiveTrue()`. */
  function CountByActiveTrue(rows: map<int, Medication>): (n: nat)
    ensures n == |set k | k in rows && rows[k].active|
    ensures n == |FindByActiveTrue(rows)|
  {
    var ids := RowOrder.Select(rows, IsActive);
    assert ids == set k | k in rows && rows[k].active;
    |ids|
  }

  /** `findByActiveTrue()`: every active medication. */
  function FindByActiveTrue(rows: map<int, Medication>): (r: seq<Medication>)
    ensures forall i :: 0 <= i < |r| ==> r[i].active
    ensures forall k :: k in rows && rows[k].active ==> rows[k] in r
    ensures |r| == |RowOrder.Select(rows, IsActive)|
  {
    RowOrder.Query(rows, IsActive)
  }
}
