/** `com.fiuni.patients.service.PatientService`: patient CRUD over the
    patient table, with soft delete and the non-blank partial update. */
module FiuniPatientService {
  import opened Wrappers
  import opened Failures
  import opened ClinicaDomain
  import Paging
  import Jpa
  import Repo = FiuniPatientRepository
  import Mapper = FiuniPatientMapper

  /** `setActive(false)`. */
  function Deactivated(p: Patient): Patient {
    p.(active := false)
  }

  /** A deleted patient is no longer found, and deleting it again returns
      false and changes nothing. */
  lemma {:induction false} DeleteThenGetIsEmpty(rows: map<int, Patient>, id: int)
    ensures var after := Jpa.SoftDelete(rows, id, Repo.IsActive, Deactivated).1;
            && Repo.FindByIdAndActiveTrue(after, id).None?
            && Jpa.SoftDelete(after, id, Repo.IsActive, Deactivated) == (false, after)
  {
    Jpa.SoftDeleteTwice(rows, id, Repo.IsActive, Deactivated);
  }

  class PatientService {
    const patientRepository: Jpa.Table<Patient>
    /** What the domain library computes (full name, age) and the gender
        constants the two enums declare. */
    const rules: PersonRules
    const genders: GenderEnums

    /** The table stores patients under their own ids, and saving a new
        patient gives it the generated id. */
    ghost predicate Valid()
      reads this, patientRepository
    {
      && patientRepository.Valid()
      && (forall p :: patientRepository.idOf(p) == p.id)
      && (forall p, k :: patientRepository.withId(p, k) == p.(id := Some(k)))
    }

    constructor (patientRepository: Jpa.Table<Patient>, rules: PersonRules, genders: GenderEnums)
      requires patientRepository.Valid()
      requires forall p :: patientRepository.idOf(p) == p.id
      requires forall p, k :: patientRepository.withId(p, k) == p.(id := Some(k))
      ensures Valid()
      ensures this.patientRepository == patientRepository && this.rules == rules && this.genders == genders
    {
      this.patientRepository := patientRepository;
      this.rules := rules;
      this.genders := genders;
    }

    function Response(p: Patient): PatientResponse
      reads this
    {
      Mapper.ToDto(Some(p), rules, genders).value
    }

    /** `getAllPatients(pageable)`: a page of the active patients, mapped. */
    function GetAllPatients(pageable: Paging.PageRequest): (page: Paging.Page<PatientResponse>)
      reads this, patientRepository
      ensures page.totalElements == Repo.CountActivePatients(patientRepository.rows)
      ensures var rows := Repo.FindAllActive(patientRepository.rows, pageable).content;
              |page.content| == |rows| && forall i :: 0 <= i < |rows| ==> page.content[i] == Response(rows[i])
    {
      var rules, genders := this.rules, this.genders;
      Paging.MapContent(Repo.FindAllActive(patientRepository.rows, pageable), (p: Patient) => Mapper.ToDto(Some(p), rules, genders).value)
    }

    /** `getPatientById(id)`: present exactly for an active patient. */
    function GetPatientById(id: int): (r: Option<PatientResponse>)
      reads this, patientRepository
      ensures r.Some? <==> id in patientRepository.rows && patientRepository.rows[id].active
      ensures r.Some? ==> r.value == Response(patientRepository.rows[id])
    {
      match Repo.FindByIdAndActiveTrue(patientRepository.rows, id)
      case Some(p) => Some(Response(p))
      case None => None
    }

    /** `createPatient(request)`: always a new row under the next id; no
        email or document is checked against the stored patients. Only a
        gender the domain enum lacks makes the mapping throw, before
        anything is saved. */
    method CreatePatient(request: PatientRequest, now: Timestamp) returns (r: Result<PatientResponse, Failure>)
      requires Valid()
      modifies patientRepository
      ensures Valid()
      ensures r.Fail? <==> request.gender.Some? && request.gender.value !in genders.domain
      ensures r.Fail? ==> patientRepository.rows == old(patientRepository.rows) && patientRepository.nextId == old(patientRepository.nextId)
      ensures r.Ok? ==> var k := old(patientRepository.nextId);
              var e := Mapper.ToEntity(Some(request), genders, now).value.value.(id := Some(k));
              && patientRepository.rows == old(patientRepository.rows)[k := e]
              && patientRepository.nextId == k + 1
              && r.value == Response(e)
    {
      var entity :- Mapper.ToEntity(Some(request), genders, now);
      var saved := patientRepository.Save(entity.value);
      return Ok(Response(saved));
    }

    /** `updatePatient(id, request)`: empty without an active patient;
        otherwise the non-blank merge of the request is saved back. */
    method UpdatePatient(id: int, request: PatientRequest, now: Timestamp) returns (r: Option<PatientResponse>)
      requires Valid()
      modifies patientRepository
      ensures Valid()
      ensures patientRepository.nextId == old(patientRepository.nextId)
      ensures r.None? <==> Repo.FindByIdAndActiveTrue(old(patientRepository.rows), id).None?
      ensures r.None? ==> patientRepository.rows == old(patientRepository.rows)
      ensures r.Some? ==> var merged := Mapper.MergedNonBlank(old(patientRepository.rows)[id], request, genders, now);
              && patientRepository.rows == old(patientRepository.rows)[id := merged]
              && r.value == Response(merged)
    {
      var existing := Repo.FindByIdAndActiveTrue(patientRepository.rows, id);
      if existing.None? {
        return None;
      }
      var patient := Mapper.UpdateEntityFromRequest(existing, Some(request), genders, now);
      var saved := patientRepository.Save(patient.value);
      return Some(Response(saved));
    }

    /** `deletePatient(id)`: the soft delete of an active patient. */
    method DeletePatient(id: int) returns (deleted: bool)
      requires Valid()
      modifies patientRepository
      ensures Valid()
      ensures patientRepository.nextId == old(patientRepository.nextId)
      ensures (deleted, patientRepository.rows) == Jpa.SoftDelete(old(patientRepository.rows), id, Repo.IsActive, Deactivated)
    {
      var patient := Repo.FindByIdAndActiveTrue(patientRepository.rows, id);
      if patient.None? {
        return false;
      }
      var saved := patientRepository.Save(Deactivated(patient.value));
      return true;
    }

    /** `searchPatients(firstName, lastName, document, bloodType)`: only
        `firstName` reaches the repository, which ignores it, so the answer
        is every active patient. */
    function SearchPatients(firstName: Option<string>, lastName: Option<string>, document: Option<string>, bloodType: Option<string>)
      : (r: seq<PatientResponse>)
      reads this, patientRepository
      ensures |r| == Repo.CountActivePatients(patientRepository.rows)
      ensures forall k :: k in patientRepository.rows && patientRepository.rows[k].active ==> Response(patientRepository.rows[k]) in r
    {
      var found := Repo.SearchPatients(patientRepository.rows, firstName);
      Mapper.ResponseListHolds(found, rules, genders);
      Mapper.ToResponseList(Some(found), rules, genders).value
    }

    /** `countActivePatients()`. */
    function CountActivePatients(): (n: nat)
      reads this, patientRepository
      ensures n == GetAllPatients(Paging.PageRequest(0, 1, [])).totalElements
      ensures n == |SearchPatients(None, None, None, None)|
    {
      Repo.CountActivePatients(patientRepository.rows)
    }
  }
}
