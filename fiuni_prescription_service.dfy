/** `com.fiuni.patients.service.PrescriptionService`: prescription CRUD and
    the join rows that put medications on a prescription. Every method is
    `@Transactional`: when building the response throws after a save, the
    save is rolled back. A link id comes from the database's own generator
    when the prescription is saved with its new join row. */
module FiuniPrescriptionService {
  import opened Wrappers
  import opened Failures
  import opened ClinicaDomain
  import Paging
  import Jpa
  import RowOrder
  import Repo = FiuniPrescriptionRepository
  import PatientRepo = FiuniPatientRepository
  import MedicationRepo = FiuniMedicationRepository
  import Mapper = FiuniPrescriptionMapper

  /** `setActive(false)`. */
  function Deactivated(p: Prescription): Prescription {
    p.(active := false)
  }

  // ------------------------------------------------ the join-row collection

  /** `anyMatch(pm -> pm.getMedication().getId().equals(medicationId))`:
      some row for the medication, active or not. */
  predicate HasLinkFor(links: seq<Link>, medicationId: int) {
    exists i :: 0 <= i < |links| && links[i].medication == medicationId
  }

  /** The row filter of `removeMedication…` and `updatePrescriptionMedication…`. */
  predicate ActiveLinkFor(l: Link, medicationId: int) {
    l.active && l.medication == medicationId
  }

  /** `filter(pm -> pm.getActive() && …).findFirst()`: the index of the first
      active row for the medication. */
  function FirstActiveLink(links: seq<Link>, medicationId: int): (r: Option<nat>)
    ensures r.Some? ==> r.value < |links| && ActiveLinkFor(links[r.value], medicationId)
    ensures r.Some? ==> forall j :: 0 <= j < r.value ==> !ActiveLinkFor(links[j], medicationId)
    ensures r.None? <==> forall j :: 0 <= j < |links| ==> !ActiveLinkFor(links[j], medicationId)
  {
    if links == [] then None
    else if ActiveLinkFor(links[0], medicationId) then Some(0)
    else
      match FirstActiveLink(links[1..], medicationId)
      case None =>
        assert forall j :: 1 <= j < |links| ==> links[j] == links[1..][j - 1];
        None
      case Some(i) => Some(i + 1)
  }

  /** `filter(pm -> pm.getMedication().getId().equals(medicationId)).findFirst()`:
      the index of the first row for the medication, active or not. */
  function FirstLinkFor(links: seq<Link>, medicationId: int): (r: Option<nat>)
    ensures r.Some? ==> r.value < |links| && links[r.value].medication == medicationId
    ensures r.Some? ==> forall j :: 0 <= j < r.value ==> links[j].medication != medicationId
    ensures r.None? <==> !HasLinkFor(links, medicationId)
  {
    if links == [] then None
    else if links[0].medication == medicationId then Some(0)
    else
      match FirstLinkFor(links[1..], medicationId)
      case None =>
        assert forall j :: 1 <= j < |links| ==> links[j] == links[1..][j - 1];
        None
      case Some(i) => Some(i + 1)
  }

  /** No two rows of a prescription are for the same medication. */
  predicate UniqueMedications(links: seq<Link>) {
    forall i, j :: 0 <= i < j < |links| ==> links[i].medication != links[j].medication
  }

  /** The join row `addMedicationToPrescriptionByIds` creates: active,
      created and modified now, with the request's detail fields. */
  function NewLink(medicationId: int, request: LinkRequest, now: Timestamp, linkId: int): (l: Link)
    ensures l.id == Some(linkId) && l.medication == medicationId && l.active
    ensures l.dosage == request.dosage && l.frequency == request.frequency && l.duration == request.duration
    ensures l.instructions == request.instructions && l.quantity == request.quantity
    ensures l.createdDate == Some(now) && l.lastModified == Some(now)
  {
    var l := Link(Some(linkId), medicationId, None, None, None, None, None, true, Some(now), Some(now));
    l.(dosage := Pick(request.dosage, l.dosage), frequency := Pick(request.frequency, l.frequency),
       duration := Pick(request.duration, l.duration), instructions := Pick(request.instructions, l.instructions),
       quantity := Pick(request.quantity, l.quantity))
  }

  /** The prescription with `link` appended to its collection (a null
      collection first becomes empty). */
  function Added(p: Prescription, link: Link): (q: Prescription)
    ensures Mapper.Links(q) == Mapper.Links(p) + [link]
    ensures q.(medications := p.medications) == p
  {
    p.(medications := Some(Mapper.Links(p) + [link]))
  }

  /** The prescription with row `i` set inactive and modified now. */
  function RemovedAt(p: Prescription, i: nat, now: Timestamp): (q: Prescription)
    requires i < |Mapper.Links(p)|
    ensures |Mapper.Links(q)| == |Mapper.Links(p)|
    ensures Mapper.Links(q)[i] == Mapper.Links(p)[i].(active := false, lastModified := Some(now))
    ensures forall j :: 0 <= j < |Mapper.Links(p)| && j != i ==> Mapper.Links(q)[j] == Mapper.Links(p)[j]
    ensures q.(medications := p.medications) == p
  {
    var links := Mapper.Links(p);
    p.(medications := Some(links[i := links[i].(active := false, lastModified := Some(now))]))
  }

  /** A row with each non-null detail of the request written over it and
      modified now. */
  function WithDetails(l: Link, request: LinkRequest, now: Timestamp): Link {
    l.(dosage := Pick(request.dosage, l.dosage), frequency := Pick(request.frequency, l.frequency),
       duration := Pick(request.duration, l.duration), instructions := Pick(request.instructions, l.instructions),
       quantity := Pick(request.quantity, l.quantity), lastModified := Some(now))
  }

  /** The prescription with the request's details applied to row `i`. */
  function DetailsUpdatedAt(p: Prescription, i: nat, request: LinkRequest, now: Timestamp): (q: Prescription)
    requires i < |Mapper.Links(p)|
    ensures |Mapper.Links(q)| == |Mapper.Links(p)|
    ensures Mapper.Links(q)[i] == WithDetails(Mapper.Links(p)[i], request, now)
    ensures forall j :: 0 <= j < |Mapper.Links(p)| && j != i ==> Mapper.Links(q)[j] == Mapper.Links(p)[j]
    ensures q.(medications := p.medications) == p
  {
    var links := Mapper.Links(p);
    p.(medications := Some(links[i := WithDetails(links[i], request, now)]))
  }

  /** The link response the link methods build: the row's details and the
      medication's id, name and generic name. */
  function LinkSummary(l: Link, medications: map<int, Medication>): (r: LinkResponse)
    ensures r.id == l.id && r.dosage == l.dosage && r.frequency == l.frequency
    ensures r.duration == l.duration && r.instructions == l.instructions && r.quantity == l.quantity
    ensures r.active.None?
    ensures r.medication.Some? <==> l.medication in medications
    ensures r.medication.Some? ==> var m := medications[l.medication];
              r.medication.value == NewMedicationResponse.(id := m.id, medicationName := m.medicationName, genericName := m.genericName)
  {
    var medication := if l.medication in medications then
                        var m := medications[l.medication];
                        Some(NewMedicationResponse.(id := m.id, medicationName := m.medicationName, genericName := m.genericName))
                      else None;
    NewLinkResponse.(id := l.id, dosage := l.dosage, frequency := l.frequency, duration := l.duration,
                     instructions := l.instructions, quantity := l.quantity, medication := medication)
  }

  /** The prescription `createPrescription` stores under the generated id `k`. */
  function Created(request: PrescriptionRequest, now: Timestamp, patientId: int, k: int): (e: Prescription)
    ensures e.id == Some(k) && e.active && e.patient == Some(PatientRef(Some(patientId)))
    ensures e.medications.None? && e.prescriptionNumber == request.prescriptionNumber && e.doctorName == request.doctorName
  {
    Mapper.ToEntity(Some(request), now).value.(patient := Some(PatientRef(Some(patientId))), id := Some(k))
  }

  // ------------------------------------------------ the join-row lemmas

  /** After a medication is added its row is the first for it, so the
      lookup that follows the save always finds the new row. */
  lemma {:induction false} AddedRowIsFirst(links: seq<Link>, link: Link)
    requires !HasLinkFor(links, link.medication)
    ensures FirstLinkFor(links + [link], link.medication) == Some(|links|)
  {
    var all := links + [link];
    assert all[|links|] == link;
    assert forall j :: 0 <= j < |links| ==> all[j] == links[j];
  }

  /** Removing never deletes a row, so every medication that had a row
      still has one: a removed medication cannot be added again. */
  lemma {:induction false} RemoveKeepsLinks(p: Prescription, i: nat, now: Timestamp, medicationId: int)
    requires i < |Mapper.Links(p)|
    ensures HasLinkFor(Mapper.Links(RemovedAt(p, i, now)), medicationId) == HasLinkFor(Mapper.Links(p), medicationId)
  {
    var before, after := Mapper.Links(p), Mapper.Links(RemovedAt(p, i, now));
    if HasLinkFor(before, medicationId) {
      var j :| 0 <= j < |before| && before[j].medication == medicationId;
      assert after[j].medication == medicationId;
    }
    if HasLinkFor(after, medicationId) {
      var j :| 0 <= j < |after| && after[j].medication == medicationId;
      assert before[j].medication == medicationId;
    }
  }

  /** Adding a medication without a row keeps the rows unique. */
  lemma {:induction false} AddKeepsUnique(links: seq<Link>, link: Link)
    requires UniqueMedications(links) && !HasLinkFor(links, link.medication)
    ensures UniqueMedications(links + [link])
  {
    var all := links + [link];
    forall i, j | 0 <= i < j < |all| ensures all[i].medication != all[j].medication {
      if j == |links| {
        assert all[i] == links[i];
      } else {
        assert all[i] == links[i] && all[j] == links[j];
      }
    }
  }

  /** Changing fields other than the medication keeps the rows unique. */
  lemma {:induction false} SameMedicationsKeepUnique(before: seq<Link>, after: seq<Link>)
    requires UniqueMedications(before) && |after| == |before|
    requires forall j :: 0 <= j < |before| ==> after[j].medication == before[j].medication
    ensures UniqueMedications(after)
  {
    forall i, j | 0 <= i < j < |after| ensures after[i].medication != after[j].medication {
      assert before[i].medication != before[j].medication;
    }
  }

  /** With unique rows, a removal leaves no active row for the medication,
      so removing it a second time returns false. */
  lemma {:induction false} SecondRemoveFindsNothing(p: Prescription, medicationId: int, now: Timestamp)
    requires UniqueMedications(Mapper.Links(p))
    requires FirstActiveLink(Mapper.Links(p), medicationId).Some?
    ensures var i := FirstActiveLink(Mapper.Links(p), medicationId).value;
            FirstActiveLink(Mapper.Links(RemovedAt(p, i, now)), medicationId).None?
  {
    var i := FirstActiveLink(Mapper.Links(p), medicationId).value;
    var before, after := Mapper.Links(p), Mapper.Links(RemovedAt(p, i, now));
    forall j | 0 <= j < |after| ensures !ActiveLinkFor(after[j], medicationId) {
      if j != i {
        assert after[j] == before[j];
        if j < i {
          assert !ActiveLinkFor(before[j], medicationId);
        } else {
          assert before[i].medication != before[j].medication;
        }
      }
    }
  }

  /** The active list grows by exactly the new row when a medication is added. */
  lemma {:induction false} AddExtendsList(p: Prescription, link: Link)
    requires link.active
    ensures Mapper.ActiveLinks(Mapper.Links(Added(p, link))) == Mapper.ActiveLinks(Mapper.Links(p)) + [link]
  {
    Mapper.ActiveLinksAppend(Mapper.Links(p), [link]);
    assert Mapper.ActiveLinks([link]) == [link] + Mapper.ActiveLinks([]);
  }

  /** The active list loses exactly one row when a medication is removed. */
  lemma {:induction false} RemoveShrinksList(p: Prescription, i: nat, now: Timestamp)
    requires i < |Mapper.Links(p)| && Mapper.Links(p)[i].active
    ensures |Mapper.ActiveLinks(Mapper.Links(RemovedAt(p, i, now)))| + 1 == |Mapper.ActiveLinks(Mapper.Links(p))|
  {
    var before, after := Mapper.Links(p), Mapper.Links(RemovedAt(p, i, now));
    assert before == before[..i] + [before[i]] + before[i + 1..];
    assert after == before[..i] + [after[i]] + before[i + 1..];
    Mapper.ActiveLinksAppend(before[..i] + [before[i]], before[i + 1..]);
    Mapper.ActiveLinksAppend(before[..i], [before[i]]);
    Mapper.ActiveLinksAppend(before[..i] + [after[i]], before[i + 1..]);
    Mapper.ActiveLinksAppend(before[..i], [after[i]]);
    assert Mapper.ActiveLinks([before[i]]) == [before[i]] + Mapper.ActiveLinks([]);
    assert Mapper.ActiveLinks([after[i]]) == Mapper.ActiveLinks([]);
  }

  // ----------------------------------------------------------- the service

  class PrescriptionService {
    const prescriptionRepository: Jpa.Table<Prescription>
    const patientRepository: Jpa.Table<Patient>
    const medicationRepository: Jpa.Table<Medication>
    /** The gender constants of the two enums, which the patient summary
        converts. */
    const genders: GenderEnums

    /** Each table stores rows under their own ids, and no stored
        prescription holds two rows for one medication. */
    ghost predicate Valid()
      reads this, prescriptionRepository, patientRepository, medicationRepository
    {
      && prescriptionRepository.Valid()
      && (forall p :: prescriptionRepository.idOf(p) == p.id)
      && (forall p, k :: prescriptionRepository.withId(p, k) == p.(id := Some(k)))
      && patientRepository.Valid()
      && (forall p :: patientRepository.idOf(p) == p.id)
      && medicationRepository.Valid()
      && (forall m :: medicationRepository.idOf(m) == m.id)
      && AllUnique(prescriptionRepository.rows)
    }

    static ghost predicate AllUnique(rows: map<int, Prescription>) {
      forall k :: k in rows ==> UniqueMedications(Mapper.Links(rows[k]))
    }

    constructor (prescriptionRepository: Jpa.Table<Prescription>, patientRepository: Jpa.Table<Patient>,
                 medicationRepository: Jpa.Table<Medication>, genders: GenderEnums)
      requires prescriptionRepository.Valid() && AllUnique(prescriptionRepository.rows)
      requires forall p :: prescriptionRepository.idOf(p) == p.id
      requires forall p, k :: prescriptionRepository.withId(p, k) == p.(id := Some(k))
      requires patientRepository.Valid() && (forall p :: patientRepository.idOf(p) == p.id)
      requires medicationRepository.Valid() && (forall m :: medicationRepository.idOf(m) == m.id)
      ensures Valid()
      ensures this.prescriptionRepository == prescriptionRepository && this.patientRepository == patientRepository
      ensures this.medicationRepository == medicationRepository && this.genders == genders
    {
      this.prescriptionRepository := prescriptionRepository;
      this.patientRepository := patientRepository;
      this.medicationRepository := medicationRepository;
      this.genders := genders;
    }

    /** `prescriptionMapper.toDto(p)` against the current patients and medications. */
    function Response(p: Prescription): Result<PrescriptionResponse, Failure>
      reads this, patientRepository, medicationRepository
    {
      Mapper.Dto(p, patientRepository.rows, medicationRepository.rows, genders)
    }

    /** `getAllPrescriptions(pageable)`: a page of the active prescriptions,
        mapped; the first mapping that throws aborts it. */
    function GetAllPrescriptions(pageable: Paging.PageRequest): (r: Result<Paging.Page<PrescriptionResponse>, Failure>)
      reads this, prescriptionRepository, patientRepository, medicationRepository
      ensures var rows := Repo.FindAllActive(prescriptionRepository.rows, pageable).content;
              && (r.Ok? <==> forall i :: 0 <= i < |rows| ==> Response(rows[i]).Ok?)
              && (r.Ok? ==> |r.value.content| == |rows| &&
                            (forall i :: 0 <= i < |rows| ==> r.value.content[i] == Response(rows[i]).value))
      ensures r.Ok? ==> r.value.totalElements == Repo.CountActivePrescriptions(prescriptionRepository.rows)
    {
      var patients, medications, genders := patientRepository.rows, medicationRepository.rows, this.genders;
      Paging.MapPage(Repo.FindAllActive(prescriptionRepository.rows, pageable),
                     (p: Prescription) => Mapper.Dto(p, patients, medications, genders))
    }

    /** `getAllPrescriptions(page, size, patientId, isFilled)`: the pages of
        all active prescriptions, newest id first. Neither `patientId` nor
        `isFilled` changes the answer. */
    function GetAllPrescriptionsFiltered(page: int, size: int, patientId: Option<int>, isFilled: Option<bool>)
      : (r: Result<Paging.Page<PrescriptionResponse>, Failure>)
      reads this, prescriptionRepository, patientRepository, medicationRepository
      ensures !(page >= 0 && size >= 1) ==> r == Fail(IllegalArgument)
      ensures page >= 0 && size >= 1 ==> r == GetAllPrescriptions(Paging.PageRequest(page, size, [Paging.Order(Paging.Desc, "id")]))
    {
      var pageable :- Paging.PageRequestOf(page, size, [Paging.Order(Paging.Desc, "id")]);
      var patients, medications, genders := patientRepository.rows, medicationRepository.rows, this.genders;
      var prescriptions := if patientId.Some? then Repo.FindByPatientIdAndActiveTrue(prescriptionRepository.rows, patientId, pageable)
                           else Repo.FindAllActive(prescriptionRepository.rows, pageable);
      Paging.MapPage(prescriptions, (p: Prescription) => Mapper.Dto(p, patients, medications, genders))
    }

    /** The filtered listing is newest first: entry `i` of page `page` is
        the mapping of the active prescription with the `(page * size + i)`-th
        largest id, and the page holds every one left there, up to `size`. */
    lemma {:induction false} FilteredNewestFirst(page: int, size: int, patientId: Option<int>, isFilled: Option<bool>, ids: seq<int>, lo: nat)
      requires page >= 0 && size >= 1
      requires GetAllPrescriptionsFiltered(page, size, patientId, isFilled).Ok?
      requires ids == RowOrder.Descending(RowOrder.Select(prescriptionRepository.rows, Repo.IsActive))
      requires lo == Paging.Start(|ids|, Paging.PageRequest(page, size, [Paging.Order(Paging.Desc, "id")]))
      ensures var hi := Paging.End(|ids|, Paging.PageRequest(page, size, [Paging.Order(Paging.Desc, "id")]));
              && |GetAllPrescriptionsFiltered(page, size, patientId, isFilled).value.content| == hi - lo
              && forall i :: 0 <= i < hi - lo ==>
                   ids[lo + i] in prescriptionRepository.rows &&
                   Response(prescriptionRepository.rows[ids[lo + i]]) == Ok(GetAllPrescriptionsFiltered(page, size, patientId, isFilled).value.content[i])
    {
      NewestFirst(Paging.PageRequest(page, size, [Paging.Order(Paging.Desc, "id")]), ids, lo);
    }

    /** Listed under `id DESC`, entry `i` of a page is the mapping of the
        active prescription with the `i`-th largest id from the page's
        start. */
    lemma {:induction false} NewestFirst(pageable: Paging.PageRequest, ids: seq<int>, lo: nat)
      requires pageable.sort == [Paging.Order(Paging.Desc, "id")]
      requires ids == RowOrder.Descending(RowOrder.Select(prescriptionRepository.rows, Repo.IsActive))
      requires lo == Paging.Start(|ids|, pageable)
      requires GetAllPrescriptions(pageable).Ok?
      ensures |GetAllPrescriptions(pageable).value.content| == Paging.End(|ids|, pageable) - lo
      ensures forall i :: 0 <= i < Paging.End(|ids|, pageable) - lo ==>
                ids[lo + i] in prescriptionRepository.rows &&
                Response(prescriptionRepository.rows[ids[lo + i]]) == Ok(GetAllPrescriptions(pageable).value.content[i])
    {
      Jpa.PagedIdDescending(prescriptionRepository.rows, Repo.IsActive, pageable, ids, lo);
    }

    /** `getPrescriptionById(id)`: empty unless the prescription is active. */
    function GetPrescriptionById(id: int): (r: Result<Option<PrescriptionResponse>, Failure>)
      reads this, prescriptionRepository, patientRepository, medicationRepository
      ensures Repo.FindByIdAndActiveTrue(prescriptionRepository.rows, id).None? ==> r == Ok(None)
      ensures Repo.FindByIdAndActiveTrue(prescriptionRepository.rows, id).Some? ==>
                r == Mapper.ToDto(Some(prescriptionRepository.rows[id]), patientRepository.rows, medicationRepository.rows, genders)
    {
      match Repo.FindByIdAndActiveTrue(prescriptionRepository.rows, id)
      case None => Ok(None)
      case Some(p) =>
        var d :- Response(p);
        Ok(Some(d))
    }

    /** `createPrescription(request)`: the request needs a patient id naming
        an active patient; the new prescription, active and linked to that
        patient, is stored under the next id. */
    method CreatePrescription(request: PrescriptionRequest, now: Timestamp) returns (r: Result<PrescriptionResponse, Failure>)
      requires Valid()
      modifies prescriptionRepository
      ensures Valid()
      ensures request.patientId.None? ==> r == Fail(PatientIdRequired)
      ensures request.patientId.Some? && PatientRepo.FindByIdAndActiveTrue(patientRepository.rows, request.patientId.value).None? ==>
                r == Fail(NotFound(PatientKind, request.patientId.value))
      ensures r.Fail? ==> prescriptionRepository.rows == old(prescriptionRepository.rows)
      ensures r.Ok? ==> && request.patientId.Some?
                        && PatientRepo.FindByIdAndActiveTrue(patientRepository.rows, request.patientId.value).Some?
      ensures request.patientId.Some? && PatientRepo.FindByIdAndActiveTrue(patientRepository.rows, request.patientId.value).Some? ==>
                var k := old(prescriptionRepository.nextId);
                var e := Created(request, now, request.patientId.value, k);
                && (r.Ok? <==> Response(e).Ok?)
                && (r.Ok? ==> prescriptionRepository.rows == old(prescriptionRepository.rows)[k := e] && r.value == Response(e).value)
    {
      if request.patientId.None? {
        return Fail(PatientIdRequired);
      }
      var patientId := request.patientId.value;
      var patient := PatientRepo.FindByIdAndActiveTrue(patientRepository.rows, patientId);
      if patient.None? {
        return Fail(NotFound(PatientKind, patientId));
      }
      var snapshot := prescriptionRepository.rows;
      var prescription := Mapper.ToEntity(Some(request), now).value;
      prescription := prescription.(patient := Some(PatientRef(patient.value.id)));
      var saved := prescriptionRepository.Save(prescription);
      var response := Response(saved);
      if response.Fail? {
        prescriptionRepository.Restore(snapshot);
        return Fail(response.error);
      }
      return Ok(response.value);
    }

    /** `updatePrescription(id, request)`: empty without an active
        prescription; otherwise the merge of the request is saved back. */
    method UpdatePrescription(id: int, request: PrescriptionRequest, now: Timestamp)
      returns (r: Result<Option<PrescriptionResponse>, Failure>)
      requires Valid()
      modifies prescriptionRepository
      ensures Valid()
      ensures prescriptionRepository.nextId == old(prescriptionRepository.nextId)
      ensures Repo.FindByIdAndActiveTrue(old(prescriptionRepository.rows), id).None? ==>
                r == Ok(None) && prescriptionRepository.rows == old(prescriptionRepository.rows)
      ensures Repo.FindByIdAndActiveTrue(old(prescriptionRepository.rows), id).Some? ==>
                var merged := Mapper.Merged(old(prescriptionRepository.rows)[id], request, now);
                && (r.Ok? <==> Response(merged).Ok?)
                && (r.Ok? ==> r.value == Some(Response(merged).value) &&
                              prescriptionRepository.rows == old(prescriptionRepository.rows)[id := merged])
                && (r.Fail? ==> prescriptionRepository.rows == old(prescriptionRepository.rows))
    {
      var existing := Repo.FindByIdAndActiveTrue(prescriptionRepository.rows, id);
      if existing.None? {
        return Ok(None);
      }
      var snapshot := prescriptionRepository.rows;
      var prescription := Mapper.UpdateEntity(existing, Some(request), now);
      assert Mapper.Links(prescription.value) == Mapper.Links(existing.value);
      var saved := prescriptionRepository.Save(prescription.value);
      var response := Response(saved);
      if response.Fail? {
        prescriptionRepository.Restore(snapshot);
        return Fail(response.error);
      }
      return Ok(Some(response.value));
    }

    /** `deletePrescription(id)`: the soft delete of an active prescription. */
    method DeletePrescription(id: int) returns (deleted: bool)
      requires Valid()
      modifies prescriptionRepository
      ensures Valid()
      ensures prescriptionRepository.nextId == old(prescriptionRepository.nextId)
      ensures (deleted, prescriptionRepository.rows) == Jpa.SoftDelete(old(prescriptionRepository.rows), id, Repo.IsActive, Deactivated)
    {
      var prescription := Repo.FindByIdAndActiveTrue(prescriptionRepository.rows, id);
      if prescription.None? {
        return false;
      }
      assert Mapper.Links(Deactivated(prescription.value)) == Mapper.Links(prescription.value);
      var saved := prescriptionRepository.Save(Deactivated(prescription.value));
      return true;
    }

    /** `getPrescriptionsByPatient(patientId)`: the first 1000 active
        prescriptions, mapped; the patient id is not applied. */
    function GetPrescriptionsByPatient(patientId: Option<int>): (r: Result<seq<PrescriptionResponse>, Failure>)
      reads this, prescriptionRepository, patientRepository, medicationRepository
      ensures r.Ok? ==> |r.value| <= 1000
      ensures var rows := Repo.FindAllActive(prescriptionRepository.rows, Paging.PageRequest(0, 1000, [])).content;
              && (r.Ok? <==> forall i :: 0 <= i < |rows| ==> Response(rows[i]).Ok?)
              && (r.Ok? ==> |r.value| == |rows| && forall i :: 0 <= i < |rows| ==> r.value[i] == Response(rows[i]).value)
    {
      var pageable := Paging.PageRequest(0, 1000, []);
      var patients, medications, genders := patientRepository.rows, medicationRepository.rows, this.genders;
      Paging.MapAll(Repo.FindByPatientIdAndActiveTrue(prescriptionRepository.rows, patientId, pageable).content,
                    (p: Prescription) => Mapper.Dto(p, patients, medications, genders))
    }

    /** `addMedicationToPrescriptionByIds(prescriptionId, medicationId, request)`:
        throws for an inactive prescription or medication and for a
        medication that already has a row, active or removed; otherwise
        exactly one new active row is appended. */
    method AddMedicationToPrescriptionByIds(prescriptionId: int, medicationId: int, request: LinkRequest, now: Timestamp, linkId: int)
      returns (r: Result<LinkResponse, Failure>)
      requires Valid()
      modifies prescriptionRepository
      ensures Valid()
      ensures prescriptionRepository.nextId == old(prescriptionRepository.nextId)
      ensures r.Fail? ==> prescriptionRepository.rows == old(prescriptionRepository.rows)
      ensures Repo.FindByIdAndActiveTrue(old(prescriptionRepository.rows), prescriptionId).None? ==>
                r == Fail(NotFound(PrescriptionKind, prescriptionId))
      ensures Repo.FindByIdAndActiveTrue(old(prescriptionRepository.rows), prescriptionId).Some? &&
              MedicationRepo.FindByIdAndActiveTrue(medicationRepository.rows, medicationId).None? ==>
                r == Fail(NotFound(MedicationKind, medicationId))
      ensures Repo.FindByIdAndActiveTrue(old(prescriptionRepository.rows), prescriptionId).Some? &&
              MedicationRepo.FindByIdAndActiveTrue(medicationRepository.rows, medicationId).Some? ==>
                var p := old(prescriptionRepository.rows)[prescriptionId];
                var link := NewLink(medicationId, request, now, linkId);
                && (HasLinkFor(Mapper.Links(p), medicationId) ==> r == Fail(AlreadyAssociated))
                && (!HasLinkFor(Mapper.Links(p), medicationId) ==>
                      && prescriptionRepository.rows == old(prescriptionRepository.rows)[prescriptionId := Added(p, link)]
                      && r == Ok(LinkSummary(link, medicationRepository.rows)))
    {
      var prescriptionOpt := Repo.FindByIdAndActiveTrue(prescriptionRepository.rows, prescriptionId);
      if prescriptionOpt.None? {
        return Fail(NotFound(PrescriptionKind, prescriptionId));
      }
      var medicationOpt := MedicationRepo.FindByIdAndActiveTrue(medicationRepository.rows, medicationId);
      if medicationOpt.None? {
        return Fail(NotFound(MedicationKind, medicationId));
      }
      var prescription, medication := prescriptionOpt.value, medicationOpt.value;
      if prescription.medications.Some? && HasLinkFor(prescription.medications.value, medicationId) {
        return Fail(AlreadyAssociated);
      }
      var link := NewLink(medicationId, request, now, linkId);
      var links := Mapper.Links(prescription) + [link];
      AddKeepsUnique(Mapper.Links(prescription), link);
      var saved := prescriptionRepository.Save(prescription.(medications := Some(links)));
      AddedRowIsFirst(Mapper.Links(prescription), link);
      var found := FirstLinkFor(Mapper.Links(saved), medicationId);
      var savedLink := Mapper.Links(saved)[found.value];
      return Ok(LinkSummary(savedLink, medicationRepository.rows));
    }

    /** `removeMedicationFromPrescriptionByIds(prescriptionId, medicationId)`:
        throws for an inactive prescription; false when no active row is for
        the medication (a null or empty collection included); otherwise only
        the first such row is set inactive. */
    method RemoveMedicationFromPrescriptionByIds(prescriptionId: int, medicationId: int, now: Timestamp)
      returns (r: Result<bool, Failure>)
      requires Valid()
      modifies prescriptionRepository
      ensures Valid()
      ensures prescriptionRepository.nextId == old(prescriptionRepository.nextId)
      ensures r != Ok(true) ==> prescriptionRepository.rows == old(prescriptionRepository.rows)
      ensures r.Fail? <==> Repo.FindByIdAndActiveTrue(old(prescriptionRepository.rows), prescriptionId).None?
      ensures r.Fail? ==> r.error == NotFound(PrescriptionKind, prescriptionId)
      ensures r.Ok? ==> var p := old(prescriptionRepository.rows)[prescriptionId];
                        var i := FirstActiveLink(Mapper.Links(p), medicationId);
                        && (r.value <==> i.Some?)
                        && (r.value ==> prescriptionRepository.rows == old(prescriptionRepository.rows)[prescriptionId := RemovedAt(p, i.value, now)])
    {
      var prescriptionOpt := Repo.FindByIdAndActiveTrue(prescriptionRepository.rows, prescriptionId);
      if prescriptionOpt.None? {
        return Fail(NotFound(PrescriptionKind, prescriptionId));
      }
      var prescription := prescriptionOpt.value;
      if prescription.medications.None? || prescription.medications.value == [] {
        return Ok(false);
      }
      var i := FirstActiveLink(prescription.medications.value, medicationId);
      if i.None? {
        return Ok(false);
      }
      var removed := RemovedAt(prescription, i.value, now);
      SameMedicationsKeepUnique(Mapper.Links(prescription), Mapper.Links(removed));
      var saved := prescriptionRepository.Save(removed);
      return Ok(true);
    }

    /** `getPrescriptionMedicationsList(prescriptionId)`: throws for an
        inactive prescription; otherwise the active rows in collection order
        (none for a null collection), each with its medication's id, name
        and generic name. */
    function GetPrescriptionMedicationsList(prescriptionId: int): (r: Result<seq<LinkResponse>, Failure>)
      reads this, prescriptionRepository, medicationRepository
      ensures r.Fail? <==> Repo.FindByIdAndActiveTrue(prescriptionRepository.rows, prescriptionId).None?
      ensures r.Fail? ==> r.error == NotFound(PrescriptionKind, prescriptionId)
      ensures r.Ok? ==> var active := Mapper.ActiveLinks(Mapper.Links(prescriptionRepository.rows[prescriptionId]));
                        |r.value| == |active| &&
                        forall i :: 0 <= i < |active| ==> r.value[i] == LinkSummary(active[i], medicationRepository.rows)
    {
      match Repo.FindByIdAndActiveTrue(prescriptionRepository.rows, prescriptionId)
      case None => Fail(NotFound(PrescriptionKind, prescriptionId))
      case Some(p) =>
        if p.medications.None? || p.medications.value == [] then Ok([])
        else
          var medications := medicationRepository.rows;
          Ok(Paging.Map(Mapper.ActiveLinks(p.medications.value), (l: Link) => LinkSummary(l, medications)))
    }

    /** `updatePrescriptionMedicationByIds(prescriptionId, medicationId, request)`:
        throws for an inactive prescription and for a null collection;
        empty when no active row is for the medication; otherwise the
        request's non-null details are written over the first such row only. */
    method UpdatePrescriptionMedicationByIds(prescriptionId: int, medicationId: int, request: LinkRequest, now: Timestamp)
      returns (r: Result<Option<LinkResponse>, Failure>)
      requires Valid()
      modifies prescriptionRepository
      ensures Valid()
      ensures prescriptionRepository.nextId == old(prescriptionRepository.nextId)
      ensures (r.Fail? || r == Ok(None)) ==> prescriptionRepository.rows == old(prescriptionRepository.rows)
      ensures Repo.FindByIdAndActiveTrue(old(prescriptionRepository.rows), prescriptionId).None? ==>
                r == Fail(NotFound(PrescriptionKind, prescriptionId))
      ensures Repo.FindByIdAndActiveTrue(old(prescriptionRepository.rows), prescriptionId).Some? ==>
                var p := old(prescriptionRepository.rows)[prescriptionId];
                var i := FirstActiveLink(Mapper.Links(p), medicationId);
                && (p.medications.None? ==> r == Fail(NullPointer))
                && (p.medications.Some? && i.None? ==> r == Ok(None))
                && (p.medications.Some? && i.Some? ==>
                      var updated := DetailsUpdatedAt(p, i.value, request, now);
                      && prescriptionRepository.rows == old(prescriptionRepository.rows)[prescriptionId := updated]
                      && r == Ok(Some(LinkSummary(Mapper.Links(updated)[i.value], medicationRepository.rows))))
    {
      var prescriptionOpt := Repo.FindByIdAndActiveTrue(prescriptionRepository.rows, prescriptionId);
      if prescriptionOpt.None? {
        return Fail(NotFound(PrescriptionKind, prescriptionId));
      }
      var prescription := prescriptionOpt.value;
      if prescription.medications.None? {
        return Fail(NullPointer);
      }
      var i := FirstActiveLink(prescription.medications.value, medicationId);
      if i.None? {
        return Ok(None);
      }
      var updated := DetailsUpdatedAt(prescription, i.value, request, now);
      SameMedicationsKeepUnique(Mapper.Links(prescription), Mapper.Links(updated));
      var saved := prescriptionRepository.Save(updated);
      return Ok(Some(LinkSummary(Mapper.Links(updated)[i.value], medicationRepository.rows)));
    }
  }
}
