/** `com.example.patients.mapper.MedicationMapper`: medication requests to
    entities and entities to responses through the shared `ModelMapper`
    bean, and the in-place update that preserves the audit fields.
    `ModelMapper` copies fields by name (strict matching); here that copy is
    written out field by field. The JSON helpers are not part of this model. */
module ExampleMedicationMapper {
  import opened Wrappers
  import opened Failures
  import opened ClinicaDomain

  /** The entity holds each of the request's seven values. */
  predicate CarriesRequest(e: Medication, d: MedicationRequest) {
    && e.medicationName == d.medicationName && e.genericName == d.genericName
    && e.medicationType == d.medicationType && e.manufacturer == d.manufacturer
    && e.description == d.description && e.sideEffects == d.sideEffects
    && e.contraindications == d.contraindications
  }

  /** `modelMapper.map(request, target)`: the request's seven fields copied
      onto the target's fields of the same name; with null skipping on, a
      null request field leaves the target's value. */
  function CopiedOnto(d: MedicationRequest, target: Medication, skipNull: bool): (e: Medication)
    ensures e.id == target.id && e.active == target.active && e.version == target.version
    ensures e.createdDate == target.createdDate && e.lastModified == target.lastModified
  {
    if skipNull then
      target.(medicationName := Pick(d.medicationName, target.medicationName),
              genericName := Pick(d.genericName, target.genericName),
              medicationType := Pick(d.medicationType, target.medicationType),
              manufacturer := Pick(d.manufacturer, target.manufacturer),
              description := Pick(d.description, target.description),
              sideEffects := Pick(d.sideEffects, target.sideEffects),
              contraindications := Pick(d.contraindications, target.contraindications))
    else
      target.(medicationName := d.medicationName, genericName := d.genericName,
              medicationType := d.medicationType, manufacturer := d.manufacturer,
              description := d.description, sideEffects := d.sideEffects,
              contraindications := d.contraindications)
  }

  /** Copying onto a new entity, whose fields are all null, gives the
      request's values whether or not nulls are skipped. */
  lemma {:induction false} FreshCopyIgnoresSkipNull(d: MedicationRequest)
    ensures CopiedOnto(d, NewMedication, true) == CopiedOnto(d, NewMedication, false)
    ensures CarriesRequest(CopiedOnto(d, NewMedication, false), d)
  {
  }

  /** The shared `ModelMapper` bean. The configuration builds it with null
      skipping on; the medication mapper switches that flag while it
      updates an entity. */
  class ModelMapper {
    var skipNullEnabled: bool

    constructor ()
      ensures skipNullEnabled
    {
      skipNullEnabled := true;
    }

    /** `getConfiguration().setSkipNullEnabled(b)`. */
    method SetSkipNullEnabled(b: bool)
      modifies this
      ensures skipNullEnabled == b
    {
      skipNullEnabled := b;
    }

    /** `map(request, target)` under the current configuration. */
    method MapOnto(d: MedicationRequest, target: Medication) returns (e: Medication)
      ensures e == CopiedOnto(d, target, skipNullEnabled)
    {
      e := CopiedOnto(d, target, skipNullEnabled);
    }
  }

  /** `modelMapper.map(request, MedicationDomain.class)`: a new entity with
      the request's seven values and every other field unset. */
  function NewEntity(d: MedicationRequest): (e: Medication)
    ensures CarriesRequest(e, d)
    ensures e.id.None? && !e.active && e.version.None? && e.createdDate.None? && e.lastModified.None?
  {
    CopiedOnto(d, NewMedication, false)
  }

  /** `requestToEntity(request)`: null stays null; otherwise a new active
      entity, created and modified now. */
  function RequestToEntity(request: Option<MedicationRequest>, now: Timestamp): (r: Option<Medication>)
    ensures r.Some? <==> request.Some?
    ensures r.Some? ==> var e := r.value;
      && CarriesRequest(e, request.value)
      && e.active && e.createdDate == Some(now) && e.lastModified == Some(now)
      && e.id.None? && e.version.None?
  {
    match request
    case None => None
    case Some(d) => Some(NewEntity(d).(active := true, createdDate := Some(now), lastModified := Some(now)))
  }

  /** `toDto(entity)`: null stays null; otherwise every same-named field.
      The entity has no field called `prescriptionCount`, so it stays null. */
  function ToDto(entity: Option<Medication>): (r: Option<MedicationResponse>)
    ensures r.Some? <==> entity.Some?
    ensures r.Some? ==> var e, d := entity.value, r.value;
      && d.id == e.id && d.active == Some(e.active) && d.version == e.version
      && d.createdDate == e.createdDate && d.lastModified == e.lastModified
      && d.medicationName == e.medicationName && d.genericName == e.genericName
      && d.medicationType == e.medicationType && d.manufacturer == e.manufacturer
      && d.description == e.description && d.sideEffects == e.sideEffects
      && d.contraindications == e.contraindications
      && d.prescriptionCount.None?
  {
    match entity
    case None => None
    case Some(e) =>
      Some(MedicationResponse(
        e.id, Some(e.active), e.version, e.createdDate, e.lastModified,
        e.medicationName, e.genericName, e.medicationType, e.manufacturer,
        e.description, e.sideEffects, e.contraindications, None))
  }

  /** A medication built from a request reads back with the request's
      values, active. */
  lemma {:induction false} CreatedMedicationReadsBack(d: MedicationRequest, now: Timestamp)
    ensures var r := ToDto(RequestToEntity(Some(d), now)).value;
            && r.medicationName == d.medicationName && r.genericName == d.genericName
            && r.medicationType == d.medicationType && r.manufacturer == d.manufacturer
            && r.description == d.description && r.sideEffects == d.sideEffects
            && r.contraindications == d.contraindications
            && r.active == Some(true) && r.createdDate == Some(now)
  {
    var e := RequestToEntity(Some(d), now).value;
    assert CarriesRequest(e, d);
  }

  /** `toEntity(request, existingId)`: null stays null; otherwise a new
      entity under the given id, modified now. Unlike an update it does not
      carry the active flag, the version or the creation date over. */
  function ToEntity(request: Option<MedicationRequest>, existingId: Option<int>, now: Timestamp): (r: Option<Medication>)
    ensures r.Some? <==> request.Some?
    ensures r.Some? ==> var e := r.value;
      && CarriesRequest(e, request.value)
      && e.id == existingId && e.lastModified == Some(now)
      && !e.active && e.version.None? && e.createdDate.None?
  {
    match request
    case None => None
    case Some(d) => Some(NewEntity(d).(id := existingId, lastModified := Some(now)))
  }

  /** The entity `updateEntityFromRequest` leaves: the request copied on
      with nulls skipped, then id, creation date, active flag and version
      put back and the modification time set to now. */
  function Updated(e: Medication, d: MedicationRequest, now: Timestamp): Medication {
    CopiedOnto(d, e, true).(id := e.id, createdDate := e.createdDate, active := e.active,
                            version := e.version, lastModified := Some(now))
  }

  /** Exactly the request's non-null fields change, besides the
      modification time; the audit fields stay. */
  lemma {:induction false} UpdateKeepsAudit(e: Medication, d: MedicationRequest, now: Timestamp)
    ensures var m := Updated(e, d, now);
            && m.id == e.id && m.createdDate == e.createdDate && m.active == e.active
            && m.version == e.version && m.lastModified == Some(now)
            && m.medicationName == Pick(d.medicationName, e.medicationName)
            && m.genericName == Pick(d.genericName, e.genericName)
            && m.medicationType == Pick(d.medicationType, e.medicationType)
            && m.manufacturer == Pick(d.manufacturer, e.manufacturer)
            && m.description == Pick(d.description, e.description)
            && m.sideEffects == Pick(d.sideEffects, e.sideEffects)
            && m.contraindications == Pick(d.contraindications, e.contraindications)
  {
  }

  /** Applying the same request twice at the same time changes nothing more,
      and a request with every field set yields its values. */
  lemma {:induction false} UpdateIdempotent(e: Medication, d: MedicationRequest, now: Timestamp)
    ensures Updated(Updated(e, d, now), d, now) == Updated(e, d, now)
    ensures d.medicationName.Some? && d.genericName.Some? && d.medicationType.Some? && d.manufacturer.Some?
              && d.description.Some? && d.sideEffects.Some? && d.contraindications.Some? ==>
              CarriesRequest(Updated(e, d, now), d)
  {
  }

  class MedicationMapper {
    const modelMapper: ModelMapper

    constructor (modelMapper: ModelMapper)
      ensures this.modelMapper == modelMapper
    {
      this.modelMapper := modelMapper;
    }

    /** `updateEntityFromRequest(entity, request)`, on the entity's value.
        The entity's id is read for the log line before the null check, so a
        null entity throws; a null request returns at once. Otherwise the
        copy runs with null skipping on, the audit fields are put back and
        null skipping is left off. */
    method UpdateEntityFromRequest(entity: Option<Medication>, request: Option<MedicationRequest>, now: Timestamp)
      returns (r: Result<Medication, Failure>)
      modifies modelMapper
      ensures entity.None? ==> r == Fail(NullPointer) && modelMapper.skipNullEnabled == old(modelMapper.skipNullEnabled)
      ensures entity.Some? && request.None? ==>
                r == Ok(entity.value) && modelMapper.skipNullEnabled == old(modelMapper.skipNullEnabled)
      ensures entity.Some? && request.Some? ==>
                r == Ok(Updated(entity.value, request.value, now)) && !modelMapper.skipNullEnabled
    {
      if entity.None? {
        return Fail(NullPointer);
      }
      var e := entity.value;
      if request.None? {
        return Ok(e);
      }
      var originalId := e.id;
      var originalCreatedDate := e.createdDate;
      var originalActive := e.active;
      var originalVersion := e.version;
      modelMapper.SetSkipNullEnabled(true);
      e := modelMapper.MapOnto(request.value, e);
      e := e.(id := originalId);
      e := e.(createdDate := originalCreatedDate);
      e := e.(active := originalActive);
      e := e.(version := originalVersion);
      e := e.(lastModified := Some(now));
      modelMapper.SetSkipNullEnabled(false);
      return Ok(e);
    }
  }
}
