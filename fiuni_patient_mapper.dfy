/** `com.fiuni.patients.mapper.PatientMapper`: patient requests to entities,
    entities to responses, and the two in-place merges of a request into a
    stored patient. */
module FiuniPatientMapper {
  import opened Wrappers
  import opened Failures
  import opened ClinicaDomain
  import JavaText

  // ------------------------------------------------------- blood types

  /** `mapBloodTypeDomainToDto`: null to null, otherwise the constant of the
      same name, which the DTO enum always has. */
  function MapBloodTypeDomainToDto(b: Option<DomainBloodType>): (r: Option<DtoBloodType>)
    ensures r.Some? <==> b.Some?
    ensures r.Some? ==> r.value.Name() == b.value.Name()
  {
    match b
    case None => None
    case Some(d) =>
      DtoNamesCoverDomain(d);
      DtoBloodTypeValueOf(d.Name())
  }

  /** `mapBloodTypeDtoToDomain`, the same in the other direction. */
  function MapBloodTypeDtoToDomain(b: Option<DtoBloodType>): (r: Option<DomainBloodType>)
    ensures r.Some? <==> b.Some?
    ensures r.Some? ==> r.value.Name() == b.value.Name()
  {
    match b
    case None => None
    case Some(d) =>
      DomainNamesCoverDto(d);
      DomainBloodTypeValueOf(d.Name())
  }

  /** The two blood-type mappings undo each other. */
  lemma BloodTypeRoundTrip(b: Option<DomainBloodType>, d: Option<DtoBloodType>)
    ensures MapBloodTypeDtoToDomain(MapBloodTypeDomainToDto(b)) == b
    ensures MapBloodTypeDomainToDto(MapBloodTypeDtoToDomain(d)) == d
  {
    if b.Some? {
      DomainNamesDistinct(MapBloodTypeDtoToDomain(MapBloodTypeDomainToDto(b)).value, b.value);
    }
    if d.Some? {
      DtoNamesDistinct(MapBloodTypeDomainToDto(MapBloodTypeDtoToDomain(d)).value, d.value);
    }
  }

  // ---------------------------------------------------------- genders

  /** `Gender.valueOf(name)` into the enum whose constants are `names`. */
  function GenderValueOf(names: set<string>, name: string): (r: Result<string, Failure>)
    ensures r.Ok? <==> name in names
    ensures r.Ok? ==> r.value == name
    ensures r.Fail? ==> r.error == NoSuchEnumConstant(name)
  {
    if name in names then Ok(name) else Fail(NoSuchEnumConstant(name))
  }

  /** The DTO gender of a domain gender, left unset when the conversion
      throws (the exception is caught and logged). */
  function GenderOrUnset(names: set<string>, gender: Option<string>, fallback: Option<string>): (r: Option<string>)
    ensures gender.Some? && gender.value in names ==> r == gender
    ensures !(gender.Some? && gender.value in names) ==> r == fallback
  {
    if gender.Some? && gender.value in names then gender else fallback
  }

  // ---------------------------------------------------------- toEntity

  /** `toEntity`: the request's fields, document type "CI", active, created
      and updated now; the gender conversion is not guarded, so a gender the
      domain enum lacks throws. */
  function ToEntity(dto: Option<PatientRequest>, genders: GenderEnums, now: Timestamp): (r: Result<Option<Patient>, Failure>)
    ensures dto.None? ==> r == Ok(None)
    ensures r.Fail? <==> dto.Some? && dto.value.gender.Some? && dto.value.gender.value !in genders.domain
    ensures r.Ok? && dto.Some? ==> r.value.Some? && CarriesRequest(r.value.value, dto.value)
    ensures r.Ok? && dto.Some? ==> var e := r.value.value;
      && e.id.None? && e.documentType == Some("CI") && e.active
      && e.createdAt == Some(now) && e.updatedAt == Some(now)
  {
    match dto
    case None => Ok(None)
    case Some(d) =>
      var gender :- if d.gender.Some? then
                      (match GenderValueOf(genders.domain, d.gender.value)
                       case Ok(g) => Ok(Some(g))
                       case Fail(e) => Fail(e))
                    else Ok(None);
      Ok(Some(NewPatient.(
        firstName := d.firstName, lastName := d.lastName, documentType := Some("CI"),
        documentNumber := d.documentNumber, email := d.email, birthDate := d.birthDate,
        phone := d.phone, allergyNotes := d.allergyNotes, chronicConditions := d.chronicConditions,
        gender := gender,
        bloodType := if d.bloodType.Some? then MapBloodTypeDtoToDomain(d.bloodType) else None,
        active := true, createdAt := Some(now), updatedAt := Some(now))))
  }

  /** Every value a patient request supplies is on the entity. */
  predicate CarriesRequest(e: Patient, d: PatientRequest) {
    && e.firstName == d.firstName && e.lastName == d.lastName
    && e.documentNumber == d.documentNumber && e.email == d.email
    && e.birthDate == d.birthDate && e.phone == d.phone
    && e.allergyNotes == d.allergyNotes && e.chronicConditions == d.chronicConditions
    && e.gender == d.gender && e.bloodType == MapBloodTypeDtoToDomain(d.bloodType)
  }

  // ------------------------------------------------------------ toDto

  /** `toDto`: never throws; an unknown gender is left unset and the rest of
      the response is still produced. */
  function ToDto(entity: Option<Patient>, rules: PersonRules, genders: GenderEnums): (r: Option<PatientResponse>)
    ensures r.Some? <==> entity.Some?
    ensures r.Some? ==> var e, d := entity.value, r.value;
      && d.id == e.id && d.active == Some(e.active)
      && d.createdDate == e.createdAt && d.lastModified == e.updatedAt
      && d.firstName == e.firstName && d.lastName == e.lastName
      && d.documentNumber == e.documentNumber && d.email == e.email && d.birthDate == e.birthDate
      && d.phone == e.phone && d.allergyNotes == e.allergyNotes && d.chronicConditions == e.chronicConditions
      && d.fullName == Some(FullName(e, rules))
      && d.age == rules.age(e)
      && (d.gender.Some? <==> e.gender.Some? && e.gender.value in genders.dto)
      && (d.gender.Some? ==> d.gender == e.gender)
      && d.bloodType == MapBloodTypeDomainToDto(e.bloodType)
  {
    match entity
    case None => None
    case Some(e) =>
      Some(NewPatientResponse.(
        id := e.id, active := Some(e.active), createdDate := e.createdAt, lastModified := e.updatedAt,
        firstName := e.firstName, lastName := e.lastName, documentNumber := e.documentNumber,
        email := e.email, birthDate := e.birthDate, phone := e.phone,
        allergyNotes := e.allergyNotes, chronicConditions := e.chronicConditions,
        fullName := Some(FullName(e, rules)), age := rules.age(e),
        gender := GenderOrUnset(genders.dto, e.gender, None),
        bloodType := if e.bloodType.Some? then MapBloodTypeDomainToDto(e.bloodType) else None))
  }

  /** The response's full name: the entity's own when it has one, otherwise
      first and last name joined by a space (a null prints as "null"). */
  function FullName(e: Patient, rules: PersonRules): (name: string)
    ensures rules.fullName(e).Some? ==> name == rules.fullName(e).value
    ensures rules.fullName(e).None? ==> name == JavaText.Printed(e.firstName) + " " + JavaText.Printed(e.lastName)
  {
    match rules.fullName(e)
    case Some(n) => n
    case None => JavaText.Printed(e.firstName) + " " + JavaText.Printed(e.lastName)
  }

  /** A patient built from a request reads back with the request's values,
      its gender included whenever both enums declare it. */
  lemma {:induction false} CreatedPatientReadsBack(d: PatientRequest, rules: PersonRules, genders: GenderEnums, now: Timestamp)
    requires d.gender.Some? ==> d.gender.value in genders.domain
    requires ToEntity(Some(d), genders, now).Ok?
    ensures var e := ToEntity(Some(d), genders, now).value.value;
            var r := ToDto(Some(e), rules, genders).value;
            && r.firstName == d.firstName && r.lastName == d.lastName
            && r.documentNumber == d.documentNumber && r.email == d.email
            && r.birthDate == d.birthDate && r.phone == d.phone
            && r.allergyNotes == d.allergyNotes && r.chronicConditions == d.chronicConditions
            && r.bloodType == d.bloodType && r.active == Some(true)
            && (d.gender.Some? && d.gender.value in genders.dto ==> r.gender == d.gender)
  {
    var e := ToEntity(Some(d), genders, now).value.value;
    BloodTypeRoundTrip(e.bloodType, d.bloodType);
  }

  /** `toResponseList`: null stays null; otherwise one response per entity,
      in order. */
  function ToResponseList(domains: Option<seq<Patient>>, rules: PersonRules, genders: GenderEnums): (r: Option<seq<PatientResponse>>)
    ensures r.Some? <==> domains.Some?
    ensures r.Some? ==> |r.value| == |domains.value|
    ensures r.Some? ==> forall i :: 0 <= i < |domains.value| ==> Some(r.value[i]) == ToDto(Some(domains.value[i]), rules, genders)
  {
    match domains
    case None => None
    case Some(ds) => Some(seq(|ds|, i requires 0 <= i < |ds| => ToDto(Some(ds[i]), rules, genders).value))
  }

  /** The mapped list holds the response of every patient in the list. */
  lemma {:induction false} ResponseListHolds(ds: seq<Patient>, rules: PersonRules, genders: GenderEnums)
    ensures forall p :: p in ds ==> ToDto(Some(p), rules, genders).value in ToResponseList(Some(ds), rules, genders).value
  {
    var r := ToResponseList(Some(ds), rules, genders).value;
    forall p | p in ds ensures ToDto(Some(p), rules, genders).value in r {
      var i :| 0 <= i < |ds| && ds[i] == p;
      assert r[i] == ToDto(Some(p), rules, genders).value;
    }
  }

  // ------------------------------------------------------ updateEntity

  /** The patient `updateEntity` leaves: each non-null request field
      overwrites, a gender the domain enum lacks is skipped, `updatedAt`
      becomes now, and nothing else changes. */
  function Merged(e: Patient, d: PatientRequest, genders: GenderEnums, now: Timestamp): Patient {
    e.(firstName := Pick(d.firstName, e.firstName), lastName := Pick(d.lastName, e.lastName),
       documentNumber := Pick(d.documentNumber, e.documentNumber), email := Pick(d.email, e.email),
       birthDate := Pick(d.birthDate, e.birthDate), phone := Pick(d.phone, e.phone),
       allergyNotes := Pick(d.allergyNotes, e.allergyNotes),
       chronicConditions := Pick(d.chronicConditions, e.chronicConditions),
       gender := GenderOrUnset(genders.domain, d.gender, e.gender),
       bloodType := if d.bloodType.Some? then MapBloodTypeDtoToDomain(d.bloodType) else e.bloodType,
       updatedAt := Some(now))
  }

  /** `updateEntity(entity, dto)`, field by field; a null argument makes it
      a no-op. */
  method UpdateEntity(entity: Option<Patient>, dto: Option<PatientRequest>, genders: GenderEnums, now: Timestamp)
    returns (updated: Option<Patient>)
    ensures entity.None? || dto.None? ==> updated == entity
    ensures entity.Some? && dto.Some? ==> updated == Some(Merged(entity.value, dto.value, genders, now))
  {
    if entity.None? || dto.None? {
      return entity;
    }
    var e, d := entity.value, dto.value;
    e := e.(firstName := Pick(d.firstName, e.firstName));
    e := e.(lastName := Pick(d.lastName, e.lastName));
    e := e.(documentNumber := Pick(d.documentNumber, e.documentNumber));
    e := e.(email := Pick(d.email, e.email));
    e := e.(birthDate := Pick(d.birthDate, e.birthDate));
    e := e.(phone := Pick(d.phone, e.phone));
    e := e.(allergyNotes := Pick(d.allergyNotes, e.allergyNotes));
    e := e.(chronicConditions := Pick(d.chronicConditions, e.chronicConditions));
    if d.gender.Some? {
      var g := GenderValueOf(genders.domain, d.gender.value);
      if g.Ok? { e := e.(gender := Some(g.value)); }
    }
    if d.bloodType.Some? { e := e.(bloodType := MapBloodTypeDtoToDomain(d.bloodType)); }
    e := e.(updatedAt := Some(now));
    return Some(e);
  }

  /** The merge keeps identity and status, and changes exactly the fields the
      request supplies. */
  lemma MergeKeepsIdentity(e: Patient, d: PatientRequest, genders: GenderEnums, now: Timestamp)
    ensures var m := Merged(e, d, genders, now);
            && m.id == e.id && m.documentType == e.documentType && m.active == e.active
            && m.createdAt == e.createdAt && m.updatedAt == Some(now)
            && (d.firstName.None? ==> m.firstName == e.firstName)
            && (d.firstName.Some? ==> m.firstName == d.firstName)
            && (d.email.None? ==> m.email == e.email)
            && (d.email.Some? ==> m.email == d.email)
  {
  }

  /** Applying the same request twice is applying it once. */
  lemma {:induction false} MergeIdempotent(e: Patient, d: PatientRequest, genders: GenderEnums, now: Timestamp)
    ensures Merged(Merged(e, d, genders, now), d, genders, now) == Merged(e, d, genders, now)
  {
  }

  // -------------------------------------------- updateEntityFromRequest

  /** A request string overwrites only when it is non-null and not blank
      after `trim()`. */
  function PickText(given: Option<string>, current: Option<string>): (r: Option<string>)
    ensures given.Some? && !JavaText.IsBlank(given.value) ==> r == given
    ensures given.None? || JavaText.IsBlank(given.value) ==> r == current
  {
    JavaText.TrimEmptyIffBlank(given.GetOr([]));
    if given.Some? && JavaText.Trim(given.value) != [] then given else current
  }

  /** The patient `updateEntityFromRequest` leaves. */
  function MergedNonBlank(e: Patient, d: PatientRequest, genders: GenderEnums, now: Timestamp): Patient {
    e.(firstName := PickText(d.firstName, e.firstName), lastName := PickText(d.lastName, e.lastName),
       documentNumber := PickText(d.documentNumber, e.documentNumber), email := PickText(d.email, e.email),
       birthDate := Pick(d.birthDate, e.birthDate), phone := PickText(d.phone, e.phone),
       allergyNotes := PickText(d.allergyNotes, e.allergyNotes),
       chronicConditions := PickText(d.chronicConditions, e.chronicConditions),
       gender := GenderOrUnset(genders.domain, d.gender, e.gender),
       bloodType := if d.bloodType.Some? then MapBloodTypeDtoToDomain(d.bloodType) else e.bloodType,
       updatedAt := Some(now))
  }

  /** `updateEntityFromRequest(existing, request)`: a partial update that
      ignores blank strings; a null argument makes it a no-op. */
  method UpdateEntityFromRequest(existing: Option<Patient>, request: Option<PatientRequest>, genders: GenderEnums, now: Timestamp)
    returns (updated: Option<Patient>)
    ensures existing.None? || request.None? ==> updated == existing
    ensures existing.Some? && request.Some? ==> updated == Some(MergedNonBlank(existing.value, request.value, genders, now))
  {
    if existing.None? || request.None? {
      return existing;
    }
    var e, d := existing.value, request.value;
    e := e.(firstName := PickText(d.firstName, e.firstName));
    e := e.(lastName := PickText(d.lastName, e.lastName));
    e := e.(documentNumber := PickText(d.documentNumber, e.documentNumber));
    e := e.(email := PickText(d.email, e.email));
    e := e.(birthDate := Pick(d.birthDate, e.birthDate));
    e := e.(phone := PickText(d.phone, e.phone));
    e := e.(allergyNotes := PickText(d.allergyNotes, e.allergyNotes));
    e := e.(chronicConditions := PickText(d.chronicConditions, e.chronicConditions));
    if d.gender.Some? {
      var g := GenderValueOf(genders.domain, d.gender.value);
      if g.Ok? { e := e.(gender := Some(g.value)); }
    }
    if d.bloodType.Some? { e := e.(bloodType := MapBloodTypeDtoToDomain(d.bloodType)); }
    e := e.(updatedAt := Some(now));
    return Some(e);
  }

  /** {Ana, Silva} merged with {lastName: "Gomez"} is {Ana, Gomez}; merged
      with {lastName: "  "} it stays {Ana, Silva}. */
  lemma NonBlankMergeExample(e: Patient, d: PatientRequest, genders: GenderEnums, now: Timestamp)
    requires e.firstName == Some("Ana") && e.lastName == Some("Silva")
    requires d.firstName.None?
    ensures d.lastName == Some("Gomez") ==>
              MergedNonBlank(e, d, genders, now).firstName == Some("Ana") &&
              MergedNonBlank(e, d, genders, now).lastName == Some("Gomez")
    ensures d.lastName == Some("  ") ==>
              MergedNonBlank(e, d, genders, now).firstName == Some("Ana") &&
              MergedNonBlank(e, d, genders, now).lastName == Some("Silva")
  {
    if d.lastName == Some("Gomez") {
      assert !JavaText.IsTrimmed("Gomez"[0]);
    }
  }

  /** A request whose strings are all blank and that sets no date, gender or
      blood type changes nothing but `updatedAt`. */
  lemma BlankRequestOnlyTouches(e: Patient, d: PatientRequest, genders: GenderEnums, now: Timestamp)
    requires forall s :: (s in [d.firstName, d.lastName, d.documentNumber, d.email, d.phone,
                                 d.allergyNotes, d.chronicConditions] && s.Some?) ==> JavaText.IsBlank(s.value)
    requires d.birthDate.None? && d.gender.None? && d.bloodType.None?
    ensures MergedNonBlank(e, d, genders, now) == e.(updatedAt := Some(now))
  {
  }
}
