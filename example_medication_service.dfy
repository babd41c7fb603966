/** `com.example.patients.service.MedicationService`: medication operations
    over the medication repository and the medication mapper. Creation and
    update go through the mapper; deletion is a soft delete. */
module ExampleMedicationService {
  import opened Wrappers
  import opened Failures
  import opened ClinicaDomain
  import Paging
  import Jpa
  import Repo = ExampleMedicationRepository
  import Mapper = ExampleMedicationMapper

  /** `setActive(false)`. */
  function Deactivated(m: Medication): (q: Medication)
    ensures !q.active && q.(active := m.active) == m
  {
    m.(active := false)
  }

  /** A deleted medication is no longer found, and deleting it again finds
      nothing. */
  lemma {:induction false} DeleteThenGetIsEmpty(rows: map<int, Medication>, id: int)
    ensures var after := Jpa.SoftDelete(rows, id, Repo.IsActive, Deactivated).1;
            && Repo.FindByIdAndActiveTrue(after, id).None?
            && !Repo.ExistsByIdAndActiveTrue(after, id)
            && Jpa.SoftDelete(after, id, Repo.IsActive, Deactivated) == (false, after)
  {
    Jpa.SoftDeleteTwice(rows, id, Repo.IsActive, Deactivated);
  }

  class MedicationService {
    const medicationRepository: Jpa.Table<Medication>
    const medicationMapper: Mapper.MedicationMapper

    /** The table stores medications under their own ids, and saving a new
        one gives it the generated id. */
    ghost predicate Valid()
      reads this, medicationRepository
    {
      && medicationRepository.Valid()
      && (forall m :: medicationRepository.idOf(m) == m.id)
      && (forall m, k :: medicationRepository.withId(m, k) == m.(id := Some(k)))
    }

    constructor (medicationRepository: Jpa.Table<Medication>, medicationMapper: Mapper.MedicationMapper)
      requires medicationRepository.Valid()
      requires forall m :: medicationRepository.idOf(m) == m.id
      requires forall m, k :: medicationRepository.withId(m, k) == m.(id := Some(k))
      ensures Valid()
      ensures this.medicationRepository == medicationRepository && this.medicationMapper == medicationMapper
    {
      this.medicationRepository := medicationRepository;
      this.medicationMapper := medicationMapper;
    }

    /** `getAllMedications(pageable)`: a page of the active medications. */
    function GetAllMedications(pageable: Paging.PageRequest): (page: Paging.Page<Medication>)
      reads this, medicationRepository
      ensures page.totalElements == |set k | k in medicationRepository.rows && medicationRepository.rows[k].active|
      ensures forall i :: 0 <= i < |page.content| ==> page.content[i].active
      ensures page == Paging.PageOf(Jpa.Ordered(medicationRepository.rows, Repo.IsActive, pageable.sort), pageable)
    {
      Repo.FindByActiveTruePage(medicationRepository.rows, pageable)
    }

    /** `getMedicationById(id)`: present exactly for an active medication. */
    function GetMedicationById(id: int): (r: Option<Medication>)
      reads this, medicationRepository
      ensures r.Some? <==> id in medicationRepository.rows && medicationRepository.rows[id].active
      ensures r.Some? ==> r.value == medicationRepository.rows[id]
    {
      Repo.FindByIdAndActiveTrue(medicationRepository.rows, id)
    }

    /** `searchMedicationsByName(name, pageable)`. */
    function SearchMedicationsByName(name: Option<string>, pageable: Paging.PageRequest): (page: Paging.Page<Medication>)
      reads this, medicationRepository
      ensures forall i :: 0 <= i < |page.content| ==>
                page.content[i].active && Repo.ContainingIgnoreCase(page.content[i].medicationName, name)
      ensures page.totalElements == |set k | k in medicationRepository.rows && medicationRepository.rows[k].active
                                              && Repo.ContainingIgnoreCase(medicationRepository.rows[k].medicationName, name)|
      ensures page == Paging.PageOf(Jpa.Ordered(medicationRepository.rows,
                                                (m: Medication) => m.active && Repo.ContainingIgnoreCase(m.medicationName, name), pageable.sort), pageable)
    {
      Repo.FindByMedicationNameContainingIgnoreCaseAndActiveTrue(medicationRepository.rows, name, pageable)
    }

    /** `searchMedicationsByManufacturer(manufacturer, pageable)`. */
    function SearchMedicationsByManufacturer(manufacturer: Option<string>, pageable: Paging.PageRequest): (page: Paging.Page<Medication>)
      reads this, medicationRepository
      ensures forall i :: 0 <= i < |page.content| ==>
                page.content[i].active && Repo.ContainingIgnoreCase(page.content[i].manufacturer, manufacturer)
      ensures page.totalElements == |set k | k in medicationRepository.rows && medicationRepository.rows[k].active
                                              && Repo.ContainingIgnoreCase(medicationRepository.rows[k].manufacturer, manufacturer)|
      ensures page == Paging.PageOf(Jpa.Ordered(medicationRepository.rows,
                                                (m: Medication) => m.active && Repo.ContainingIgnoreCase(m.manufacturer, manufacturer), pageable.sort), pageable)
    {
      Repo.FindByManufacturerContainingIgnoreCaseAndActiveTrue(medicationRepository.rows, manufacturer, pageable)
    }

    /** `searchMedicationsByGenericName(genericName, pageable)`. */
    function SearchMedicationsByGenericName(genericName: Option<string>, pageable: Paging.PageRequest): (page: Paging.Page<Medication>)
      reads this, medicationRepository
      ensures forall i :: 0 <= i < |page.content| ==>
                page.content[i].active && Repo.ContainingIgnoreCase(page.content[i].genericName, genericName)
      ensures page.totalElements == |set k | k in medicationRepository.rows && medicationRepository.rows[k].active
                                              && Repo.ContainingIgnoreCase(medicationRepository.rows[k].genericName, genericName)|
      ensures page == Paging.PageOf(Jpa.Ordered(medicationRepository.rows,
                                                (m: Medication) => m.active && Repo.ContainingIgnoreCase(m.genericName, genericName), pageable.sort), pageable)
    {
      Repo.FindByGenericNameContainingIgnoreCaseAndActiveTrue(medicationRepository.rows, genericName, pageable)
    }

    /** `createMedication(request)`: a null request maps to null, which
        `save` rejects; otherwise the mapped medication is inserted under the
        next id and read back. */
    method CreateMedication(request: Option<MedicationRequest>, now: Timestamp) returns (r: Result<MedicationResponse, Failure>)
      requires Valid()
      modifies medicationRepository
      ensures Valid()
      ensures r.Fail? <==> request.None?
      ensures r.Fail? ==> r.error == IllegalArgument
                          && medicationRepository.rows == old(medicationRepository.rows)
                          && medicationRepository.nextId == old(medicationRepository.nextId)
      ensures r.Ok? ==> var k := old(medicationRepository.nextId);
              var e := Mapper.RequestToEntity(request, now).value.(id := Some(k));
              && medicationRepository.rows == old(medicationRepository.rows)[k := e]
              && medicationRepository.nextId == k + 1
              && Some(r.value) == Mapper.ToDto(Some(e))
    {
      var entity := Mapper.RequestToEntity(request, now);
      if entity.None? {
        return Fail(IllegalArgument);
      }
      var saved := medicationRepository.Save(entity.value);
      return Ok(Mapper.ToDto(Some(saved)).value);
    }

    /** `updateMedication(id, request)`: not found without an active
        medication; otherwise the mapper's update is saved back in place
        (a null request saves the row unchanged) and read back. The mapper
        leaves the shared model mapper's null skipping off after an update
        with a request. */
    method UpdateMedication(id: int, request: Option<MedicationRequest>, now: Timestamp) returns (r: Result<MedicationResponse, Failure>)
      requires Valid()
      modifies medicationRepository, medicationMapper.modelMapper
      ensures Valid()
      ensures medicationRepository.nextId == old(medicationRepository.nextId)
      ensures r.Fail? <==> Repo.FindByIdAndActiveTrue(old(medicationRepository.rows), id).None?
      ensures r.Fail? ==> r.error == NotFound(MedicationKind, id) && medicationRepository.rows == old(medicationRepository.rows)
      ensures r.Ok? ==> var before := old(medicationRepository.rows)[id];
              var m := if request.Some? then Mapper.Updated(before, request.value, now) else before;
              && medicationRepository.rows == old(medicationRepository.rows)[id := m]
              && Some(r.value) == Mapper.ToDto(Some(m))
      ensures r.Ok? && request.Some? ==> !medicationMapper.modelMapper.skipNullEnabled
      ensures r.Fail? || request.None? ==> medicationMapper.modelMapper.skipNullEnabled == old(medicationMapper.modelMapper.skipNullEnabled)
    {
      var existing := Repo.FindByIdAndActiveTrue(medicationRepository.rows, id);
      if existing.None? {
        return Fail(NotFound(MedicationKind, id));
      }
      var updated := medicationMapper.UpdateEntityFromRequest(existing, request, now);
      var saved := medicationRepository.Save(updated.value);
      return Ok(Mapper.ToDto(Some(saved)).value);
    }

    /** `deleteMedication(id)`: the soft delete of an active medication;
        not found otherwise. */
    method DeleteMedication(id: int) returns (r: Result<(), Failure>)
      requires Valid()
      modifies medicationRepository
      ensures Valid()
      ensures medicationRepository.nextId == old(medicationRepository.nextId)
      ensures var (deleted, rows) := Jpa.SoftDelete(old(medicationRepository.rows), id, Repo.IsActive, Deactivated);
              && medicationRepository.rows == rows
              && (r.Fail? <==> !deleted)
              && (r.Fail? ==> r.error == NotFound(MedicationKind, id))
    {
      var medication := Repo.FindByIdAndActiveTrue(medicationRepository.rows, id);
      if medication.None? {
        return Fail(NotFound(MedicationKind, id));
      }
      var saved := medicationRepository.Save(Deactivated(medication.value));
      return Ok(());
    }

    /** `existsById(id)`. */
    function ExistsById(id: int): (r: bool)
      reads this, medicationRepository
      ensures r <==> GetMedicationById(id).Some?
    {
      Repo.ExistsByIdAndActiveTrue(medicationRepository.rows, id)
    }
  }
}
