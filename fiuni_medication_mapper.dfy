/** `com.fiuni.patients.mapper.MedicationMapper`: medication requests to
    entities, entities to responses, and the in-place merge of a request.
    Unlike the patient and prescription mappers, its merge refreshes no
    timestamp. The medication's inverse collection of join rows is not a
    field of the entity here: the caller passes it (null when JPA left it
    unloaded). */
module FiuniMedicationMapper {
  import opened Wrappers
  import opened ClinicaDomain

  /** `toEntity`: the seven descriptive fields verbatim, active, and every
      other field null. */
  function ToEntity(dto: Option<MedicationRequest>): (r: Option<Medication>)
    ensures r.Some? <==> dto.Some?
    ensures r.Some? ==> CarriesRequest(r.value, dto.value)
    ensures r.Some? ==> var e := r.value;
      && e.active && e.id.None? && e.version.None? && e.createdDate.None? && e.lastModified.None?
  {
    match dto
    case None => None
    case Some(d) =>
      Some(NewMedication.(
        medicationName := d.medicationName, genericName := d.genericName,
        medicationType := d.medicationType, manufacturer := d.manufacturer,
        description := d.description, sideEffects := d.sideEffects,
        contraindications := d.contraindications, active := true))
  }

  /** The entity holds each of the request's seven values. */
  predicate CarriesRequest(e: Medication, d: MedicationRequest) {
    && e.medicationName == d.medicationName && e.genericName == d.genericName
    && e.medicationType == d.medicationType && e.manufacturer == d.manufacturer
    && e.description == d.description && e.sideEffects == d.sideEffects
    && e.contraindications == d.contraindications
  }

  /** `toDto`: every field of the entity, and as `prescriptionCount` the size
      of its collection of join rows, 0 when that collection is null. */
  function ToDto(entity: Option<Medication>, prescriptions: Option<seq<Link>>): (r: Option<MedicationResponse>)
    ensures r.Some? <==> entity.Some?
    ensures r.Some? ==> var e, d := entity.value, r.value;
      && d.id == e.id && d.active == Some(e.active) && d.version == e.version
      && d.createdDate == e.createdDate && d.lastModified == e.lastModified
      && d.medicationName == e.medicationName && d.genericName == e.genericName
      && d.medicationType == e.medicationType && d.manufacturer == e.manufacturer
      && d.description == e.description && d.sideEffects == e.sideEffects
      && d.contraindications == e.contraindications
      && d.prescriptionCount == Some(if prescriptions.Some? then |prescriptions.value| else 0)
  {
    match entity
    case None => None
    case Some(e) =>
      Some(MedicationResponse(
        e.id, Some(e.active), e.version, e.createdDate, e.lastModified,
        e.medicationName, e.genericName, e.medicationType, e.manufacturer,
        e.description, e.sideEffects, e.contraindications,
        Some(if prescriptions.Some? then |prescriptions.value| else 0)))
  }

  /** A medication built from a request reads back with the request's
      values, active and with a count of 0 while it has no join rows. */
  lemma {:induction false} CreatedMedicationReadsBack(d: MedicationRequest)
    ensures var r := ToDto(ToEntity(Some(d)), None).value;
            && r.medicationName == d.medicationName && r.genericName == d.genericName
            && r.medicationType == d.medicationType && r.manufacturer == d.manufacturer
            && r.description == d.description && r.sideEffects == d.sideEffects
            && r.contraindications == d.contraindications
            && r.active == Some(true) && r.prescriptionCount == Some(0)
  {
    var e := ToEntity(Some(d)).value;
    assert CarriesRequest(e, d);
  }

  /** `toResponseList`: null stays null; otherwise one response per entity,
      in order, each counting that entity's own join rows. */
  function ToResponseList(domains: Option<seq<Medication>>, prescriptionsOf: Medication -> Option<seq<Link>>)
    : (r: Option<seq<MedicationResponse>>)
    ensures r.Some? <==> domains.Some?
    ensures r.Some? ==> |r.value| == |domains.value|
    ensures r.Some? ==> forall i :: 0 <= i < |domains.value| ==>
              Some(r.value[i]) == ToDto(Some(domains.value[i]), prescriptionsOf(domains.value[i]))
  {
    match domains
    case None => None
    case Some(ds) => Some(seq(|ds|, i requires 0 <= i < |ds| => ToDto(Some(ds[i]), prescriptionsOf(ds[i])).value))
  }

  /** The mapped list holds the response of every medication in the list. */
  lemma {:induction false} ResponseListHolds(ds: seq<Medication>, prescriptionsOf: Medication -> Option<seq<Link>>)
    ensures forall m :: m in ds ==> ToDto(Some(m), prescriptionsOf(m)).value in ToResponseList(Some(ds), prescriptionsOf).value
  {
    var r := ToResponseList(Some(ds), prescriptionsOf).value;
    forall m | m in ds ensures ToDto(Some(m), prescriptionsOf(m)).value in r {
      var i :| 0 <= i < |ds| && ds[i] == m;
      assert r[i] == ToDto(Some(m), prescriptionsOf(m)).value;
    }
  }

  /** The medication `updateEntity` leaves: each non-null request field
      overwrites and nothing else changes, timestamps included. */
  function Merged(e: Medication, d: MedicationRequest): Medication {
    e.(medicationName := Pick(d.medicationName, e.medicationName),
       genericName := Pick(d.genericName, e.genericName),
       medicationType := Pick(d.medicationType, e.medicationType),
       manufacturer := Pick(d.manufacturer, e.manufacturer),
       description := Pick(d.description, e.description),
       sideEffects := Pick(d.sideEffects, e.sideEffects),
       contraindications := Pick(d.contraindications, e.contraindications))
  }

  /** `updateEntity(entity, dto)`, setter by setter; a null argument makes
      it a no-op. */
  method UpdateEntity(entity: Option<Medication>, dto: Option<MedicationRequest>) returns (updated: Option<Medication>)
    ensures entity.None? || dto.None? ==> updated == entity
    ensures entity.Some? && dto.Some? ==> updated == Some(Merged(entity.value, dto.value))
  {
    if entity.None? || dto.None? {
      return entity;
    }
    var e, d := entity.value, dto.value;
    e := e.(medicationName := Pick(d.medicationName, e.medicationName));
    e := e.(genericName := Pick(d.genericName, e.genericName));
    e := e.(medicationType := Pick(d.medicationType, e.medicationType));
    e := e.(manufacturer := Pick(d.manufacturer, e.manufacturer));
    e := e.(description := Pick(d.description, e.description));
    e := e.(sideEffects := Pick(d.sideEffects, e.sideEffects));
    e := e.(contraindications := Pick(d.contraindications, e.contraindications));
    return Some(e);
  }

  /** The merge keeps id, status, version and both timestamps, and a request
      that sets no field changes nothing. */
  lemma MergeKeepsAudit(e: Medication, d: MedicationRequest)
    ensures var m := Merged(e, d);
            && m.id == e.id && m.active == e.active && m.version == e.version
            && m.createdDate == e.createdDate && m.lastModified == e.lastModified
    ensures d == MedicationRequest(None, None, None, None, None, None, None) ==> Merged(e, d) == e
  {
  }

  /** Merging a request whose fields are all set yields its values whatever
      the entity held. */
  lemma {:induction false} FullRequestReplaces(e: Medication, d: MedicationRequest)
    requires d.medicationName.Some? && d.genericName.Some? && d.medicationType.Some?
    requires d.manufacturer.Some? && d.description.Some? && d.sideEffects.Some?
    requires d.contraindications.Some?
    ensures CarriesRequest(Merged(e, d), d)
  {
  }
}
