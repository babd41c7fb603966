/** `com.fiuni.patients.service.MedicationService`: medication CRUD over the
    medication table, with soft delete and the two searches. */
module FiuniMedicationService {
  import opened Wrappers
  import opened ClinicaDomain
  import Paging
  import Jpa
  import Repo = FiuniMedicationRepository
  import Mapper = FiuniMedicationMapper

  /** `setActive(false)`. */
  function Deactivated(m: Medication): Medication {
    m.(active := false)
  }

  /** A deleted medication is no longer found, and deleting it again returns
      false and changes nothing. */
  lemma {:induction false} DeleteThenGetIsEmpty(rows: map<int, Medication>, id: int)
    ensures var after := Jpa.SoftDelete(rows, id, Repo.IsActive, Deactivated).1;
            && Repo.FindByIdAndActiveTrue(after, id).None?
            && Jpa.SoftDelete(after, id, Repo.IsActive, Deactivated) == (false, after)
  {
    Jpa.SoftDeleteTwice(rows, id, Repo.IsActive, Deactivated);
  }

  class MedicationService {
    const medicationRepository: Jpa.Table<Medication>
    /** The join rows JPA loads into a medication's `prescriptions`
        collection (null when not loaded). */
    const prescriptionsOf: Medication -> Option<seq<Link>>

    ghost predicate Valid()
      reads this, medicationRepository
    {
      && medicationRepository.Valid()
      && (forall m :: medicationRepository.idOf(m) == m.id)
      && (forall m, k :: medicationRepository.withId(m, k) == m.(id := Some(k)))
    }

    constructor (medicationRepository: Jpa.Table<Medication>, prescriptionsOf: Medication -> Option<seq<Link>>)
      requires medicationRepository.Valid()
      requires forall m :: medicationRepository.idOf(m) == m.id
      requires forall m, k :: medicationRepository.withId(m, k) == m.(id := Some(k))
      ensures Valid()
      ensures this.medicationRepository == medicationRepository && this.prescriptionsOf == prescriptionsOf
    {
      this.medicationRepository := medicationRepository;
      this.prescriptionsOf := prescriptionsOf;
    }

    function Response(m: Medication): MedicationResponse
      reads this
    {
      Mapper.ToDto(Some(m), prescriptionsOf(m)).value
    }

    /** `getAllMedications(pageable)`: a page of the active medications, mapped. */
    function GetAllMedications(pageable: Paging.PageRequest): (page: Paging.Page<MedicationResponse>)
      reads this, medicationRepository
      ensures page.totalElements == Repo.CountActiveMedications(medicationRepository.rows)
      ensures var rows := Repo.FindAllActive(medicationRepository.rows, pageable).content;
              |page.content| == |rows| && forall i :: 0 <= i < |rows| ==> page.content[i] == Response(rows[i])
    {
      var prescriptionsOf := this.prescriptionsOf;
      Paging.MapContent(Repo.FindAllActive(medicationRepository.rows, pageable),
                        (m: Medication) => Mapper.ToDto(Some(m), prescriptionsOf(m)).value)
    }

    /** `getMedicationById(id)`: present exactly for an active medication. */
    function GetMedicationById(id: int): (r: Option<MedicationResponse>)
      reads this, medicationRepository
      ensures r.Some? <==> id in medicationRepository.rows && medicationRepository.rows[id].active
      ensures r.Some? ==> r.value == Response(medicationRepository.rows[id])
    {
      match Repo.FindByIdAndActiveTrue(medicationRepository.rows, id)
      case Some(m) => Some(Response(m))
      case None => None
    }

    /** `createMedication(request)`: the mapped, active medication is stored
        under the next id. */
    method CreateMedication(request: MedicationRequest) returns (r: MedicationResponse)
      requires Valid()
      modifies medicationRepository
      ensures Valid()
      ensures var k := old(medicationRepository.nextId);
              var e := Mapper.ToEntity(Some(request)).value.(id := Some(k));
              && e.active
              && medicationRepository.rows == old(medicationRepository.rows)[k := e]
              && medicationRepository.nextId == k + 1
              && r == Response(e)
    {
      var medication := Mapper.ToEntity(Some(request));
      var saved := medicationRepository.Save(medication.value);
      return Response(saved);
    }

    /** `updateMedication(id, request)`: empty without an active medication;
        otherwise the merge of the request is saved back. */
    method UpdateMedication(id: int, request: MedicationRequest) returns (r: Option<MedicationResponse>)
      requires Valid()
      modifies medicationRepository
      ensures Valid()
      ensures medicationRepository.nextId == old(medicationRepository.nextId)
      ensures r.None? <==> Repo.FindByIdAndActiveTrue(old(medicationRepository.rows), id).None?
      ensures r.None? ==> medicationRepository.rows == old(medicationRepository.rows)
      ensures r.Some? ==> var merged := Mapper.Merged(old(medicationRepository.rows)[id], request);
              && medicationRepository.rows == old(medicationRepository.rows)[id := merged]
              && r.value == Response(merged)
    {
      var existing := Repo.FindByIdAndActiveTrue(medicationRepository.rows, id);
      if existing.None? {
        return None;
      }
      var medication := Mapper.UpdateEntity(existing, Some(request));
      var saved := medicationRepository.Save(medication.value);
      return Some(Response(saved));
    }

    /** `deleteMedication(id)`: the soft delete of an active medication. */
    method DeleteMedication(id: int) returns (deleted: bool)
      requires Valid()
      modifies medicationRepository
      ensures Valid()
      ensures medicationRepository.nextId == old(medicationRepository.nextId)
      ensures (deleted, medicationRepository.rows) == Jpa.SoftDelete(old(medicationRepository.rows), id, Repo.IsActive, Deactivated)
    {
      var medication := Repo.FindByIdAndActiveTrue(medicationRepository.rows, id);
      if medication.None? {
        return false;
      }
      var saved := medicationRepository.Save(Deactivated(medication.value));
      return true;
    }

    /** `searchMedications(searchTerm)`: the repository's term search, mapped. */
    function SearchMedications(searchTerm: Option<string>): (r: seq<MedicationResponse>)
      reads this, medicationRepository
      ensures var found := Repo.SearchMedications(medicationRepository.rows, searchTerm);
              |r| == |found| && forall i :: 0 <= i < |found| ==> r[i] == Response(found[i])
    {
      var prescriptionsOf := this.prescriptionsOf;
      Mapper.ToResponseList(Some(Repo.SearchMedications(medicationRepository.rows, searchTerm)), prescriptionsOf).value
    }

    /** `searchMedications(name, genericName, medicationType, manufacturer)`:
        exactly the repository's criteria filter, mapped. */
    function SearchMedicationsByCriteria(name: Option<string>, genericName: Option<string>,
                                         medicationType: Option<string>, manufacturer: Option<string>)
      : (r: seq<MedicationResponse>)
      reads this, medicationRepository
      ensures var found := Repo.SearchMedicationsByCriteria(medicationRepository.rows, Repo.Criteria(name, genericName, medicationType, manufacturer));
              |r| == |found| && forall i :: 0 <= i < |found| ==> r[i] == Response(found[i])
      ensures forall k :: k in medicationRepository.rows &&
                          Repo.MatchesCriteria(Repo.Criteria(name, genericName, medicationType, manufacturer), medicationRepository.rows[k]) ==>
                          Response(medicationRepository.rows[k]) in r
    {
      var prescriptionsOf := this.prescriptionsOf;
      var found := Repo.SearchMedicationsByCriteria(medicationRepository.rows, Repo.Criteria(name, genericName, medicationType, manufacturer));
      Mapper.ResponseListHolds(found, prescriptionsOf);
      Mapper.ToResponseList(Some(found), prescriptionsOf).value
    }

    /** `countActiveMedications()`. */
    function CountActiveMedications(): (n: nat)
      reads this, medicationRepository
      ensures n == GetAllMedications(Paging.PageRequest(0, 1, [])).totalElements
      ensures n == |SearchMedications(None)|
    {
      Repo.CountActiveMedications(medicationRepository.rows)
    }
  }
}
