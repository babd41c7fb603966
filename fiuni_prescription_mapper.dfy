/** `com.fiuni.patients.mapper.PrescriptionMapper`: prescription requests to
    entities, entities to responses (with a summary of the patient and the
    active medication links), and the in-place merge of a request.
    A prescription refers to its patient and its links refer to their
    medications by id, so the response is built against the patient and
    medication tables. */
module FiuniPrescriptionMapper {
  import opened Wrappers
  import opened Failures
  import opened ClinicaDomain
  import JavaText
  import Paging

  // --------------------------------------------------------- toEntity

  /** `toEntity`: an active prescription created and modified now, holding
      every field the request supplies and no patient yet (the service
      assigns it). */
  function ToEntity(dto: Option<PrescriptionRequest>, now: Timestamp): (r: Option<Prescription>)
    ensures r.Some? <==> dto.Some?
    ensures r.Some? ==> var e, d := r.value, dto.value;
      && e.prescriptionNumber == d.prescriptionNumber && e.prescriptionDate == d.prescriptionDate
      && e.doctorName == d.doctorName && e.doctorLicense == d.doctorLicense
      && e.notes == d.notes && e.validUntil == d.validUntil && e.isFilled == d.isFilled
      && e.id.None? && e.version.None? && e.active
      && e.createdDate == Some(now) && e.lastModified == Some(now)
      && e.patient.None? && e.medications.None?
  {
    match dto
    case None => None
    case Some(d) =>
      var e := NewPrescription;
      Some(e.(
        prescriptionNumber := Pick(d.prescriptionNumber, e.prescriptionNumber),
        prescriptionDate := Pick(d.prescriptionDate, e.prescriptionDate),
        doctorName := Pick(d.doctorName, e.doctorName),
        doctorLicense := Pick(d.doctorLicense, e.doctorLicense),
        notes := Pick(d.notes, e.notes),
        validUntil := Pick(d.validUntil, e.validUntil),
        isFilled := Pick(d.isFilled, e.isFilled),
        active := true, createdDate := Some(now), lastModified := Some(now)))
  }

  // ------------------------------------------------------------ toDto

  /** The join rows of a prescription; a null collection has none. */
  function Links(p: Prescription): seq<Link> {
    p.medications.GetOr([])
  }

  /** The stream `filter(getActive)`: the active links, in collection order. */
  function ActiveLinks(links: seq<Link>): (r: seq<Link>)
    ensures |r| <= |links|
    ensures forall i :: 0 <= i < |r| ==> r[i].active
    ensures forall l :: l in r <==> l in links && l.active
  {
    if links == [] then []
    else if links[0].active then [links[0]] + ActiveLinks(links[1..])
    else ActiveLinks(links[1..])
  }

  /** The filter distributes over concatenation, so it keeps the collection's
      order. */
  lemma {:induction false} ActiveLinksAppend(a: seq<Link>, b: seq<Link>)
    ensures ActiveLinks(a + b) == ActiveLinks(a) + ActiveLinks(b)
  {
    if a == [] {
      assert a + b == b;
    } else {
      var ab := a + b;
      assert ab != [] && ab[0] == a[0] && ab[1..] == a[1..] + b;
      ActiveLinksAppend(a[1..], b);
      if a[0].active {
        calc {
          ActiveLinks(ab);
          [a[0]] + ActiveLinks(a[1..] + b);
          [a[0]] + (ActiveLinks(a[1..]) + ActiveLinks(b));
          ([a[0]] + ActiveLinks(a[1..])) + ActiveLinks(b);
        }
      } else {
        calc {
          ActiveLinks(ab);
          ActiveLinks(a[1..] + b);
        }
      }
    }
  }

  /** A collection without an inactive row passes the filter whole. */
  lemma {:induction false} ActiveLinksOfAllActive(links: seq<Link>)
    requires forall i :: 0 <= i < |links| ==> links[i].active
    ensures ActiveLinks(links) == links
  {
    if links != [] {
      ActiveLinksOfAllActive(links[1..]);
    }
  }

  /** The patient object a prescription's reference stands for: the stored
      row, or, for a reference that names no stored row, an object that
      holds only that id. */
  function ReferencedPatient(ref: PatientRef, patients: map<int, Patient>): (p: Patient)
    ensures p.id == ref.id || (ref.id.Some? && ref.id.value in patients && p == patients[ref.id.value])
  {
    if ref.id.Some? && ref.id.value in patients then patients[ref.id.value]
    else NewPatient.(id := ref.id)
  }

  /** The patient summary `toDto` attaches: identity, names, document,
      email, birth date, the two enums converted by name, the full name
      joined from the two names and an empty prescription list. The gender
      conversion is not guarded: a name the DTO enum lacks throws. */
  function PatientSummary(p: Patient, genders: GenderEnums): (r: Result<PatientResponse, Failure>)
    ensures r.Fail? <==> p.gender.Some? && p.gender.value !in genders.dto
    ensures r.Ok? ==> var s := r.value;
      && s.id == p.id && s.firstName == p.firstName && s.lastName == p.lastName
      && s.documentNumber == p.documentNumber && s.email == p.email && s.birthDate == p.birthDate
      && s.gender == p.gender
      && (s.bloodType.Some? <==> p.bloodType.Some?)
      && (s.bloodType.Some? ==> s.bloodType.value.Name() == p.bloodType.value.Name())
      && s.fullName == Some(JavaText.Printed(p.firstName) + " " + JavaText.Printed(p.lastName))
      && s.prescriptions == Some([])
      && s.active.None? && s.phone.None? && s.age.None?
  {
    if p.gender.Some? && p.gender.value !in genders.dto then Fail(NoSuchEnumConstant(p.gender.value))
    else
      var blood := if p.bloodType.Some? then
                     DtoNamesCoverDomain(p.bloodType.value);
                     DtoBloodTypeValueOf(p.bloodType.value.Name())
                   else None;
      Ok(NewPatientResponse.(
        id := p.id, firstName := p.firstName, lastName := p.lastName,
        documentNumber := p.documentNumber, email := p.email, birthDate := p.birthDate,
        gender := p.gender, bloodType := blood,
        fullName := Some(JavaText.Printed(p.firstName) + " " + JavaText.Printed(p.lastName)),
        prescriptions := Some([])))
  }

  /** A link's response: its own fields and a copy of its medication's
      descriptive fields. */
  function LinkToDto(l: Link, medications: map<int, Medication>): (r: LinkResponse)
    ensures r.id == l.id && r.dosage == l.dosage && r.frequency == l.frequency
    ensures r.duration == l.duration && r.instructions == l.instructions
    ensures r.quantity == l.quantity && r.active == Some(l.active)
    ensures r.medication.Some? <==> l.medication in medications
    ensures r.medication.Some? ==> var m, md := medications[l.medication], r.medication.value;
      && md.id == m.id && md.medicationName == m.medicationName && md.genericName == m.genericName
      && md.medicationType == m.medicationType && md.manufacturer == m.manufacturer
      && md.description == m.description && md.sideEffects == m.sideEffects
      && md.contraindications == m.contraindications && md.active == Some(m.active)
      && md.version.None? && md.createdDate.None? && md.prescriptionCount.None?
  {
    var medication :=
      if l.medication in medications then
        var m := medications[l.medication];
        Some(NewMedicationResponse.(
          id := m.id, medicationName := m.medicationName, genericName := m.genericName,
          medicationType := m.medicationType, manufacturer := m.manufacturer,
          description := m.description, sideEffects := m.sideEffects,
          contraindications := m.contraindications, active := Some(m.active)))
      else None;
    NewLinkResponse.(
      id := l.id, dosage := l.dosage, frequency := l.frequency, duration := l.duration,
      instructions := l.instructions, quantity := l.quantity, active := Some(l.active),
      medication := medication)
  }

  /** `toDto` of a non-null prescription: its own fields, the patient summary
      when it has a patient, and one response per active link, in order (an
      empty list for a null collection). Throws only where the summary does. */
  function Dto(e: Prescription, patients: map<int, Patient>, medications: map<int, Medication>, genders: GenderEnums)
    : (r: Result<PrescriptionResponse, Failure>)
    ensures r.Fail? <==> e.patient.Some? && PatientSummary(ReferencedPatient(e.patient.value, patients), genders).Fail?
    ensures r.Ok? ==> var d := r.value;
      && d.id == e.id && d.active == Some(e.active) && d.version == e.version
      && d.createdDate == e.createdDate && d.lastModified == e.lastModified
      && d.prescriptionNumber == e.prescriptionNumber && d.prescriptionDate == e.prescriptionDate
      && d.doctorName == e.doctorName && d.doctorLicense == e.doctorLicense
      && d.notes == e.notes && d.validUntil == e.validUntil && d.isFilled == e.isFilled
      && (d.patient.Some? <==> e.patient.Some?)
      && (d.patient.Some? ==> Ok(d.patient.value) == PatientSummary(ReferencedPatient(e.patient.value, patients), genders))
      && d.medications.Some?
      && |d.medications.value| == |ActiveLinks(Links(e))|
      && (forall i :: 0 <= i < |d.medications.value| ==>
            d.medications.value[i] == LinkToDto(ActiveLinks(Links(e))[i], medications))
  {
    var patient :- if e.patient.Some? then
                     (match PatientSummary(ReferencedPatient(e.patient.value, patients), genders)
                      case Ok(s) => Ok(Some(s))
                      case Fail(f) => Fail(f))
                   else Ok(None);
    Ok(PrescriptionResponse(
      e.id, Some(e.active), e.version, e.createdDate, e.lastModified,
      e.prescriptionNumber, e.prescriptionDate, e.doctorName, e.doctorLicense,
      e.notes, e.validUntil, e.isFilled, patient,
      Some(Paging.Map(ActiveLinks(Links(e)), (l: Link) => LinkToDto(l, medications)))))
  }

  /** `toDto`: null maps to null. */
  function ToDto(entity: Option<Prescription>, patients: map<int, Patient>, medications: map<int, Medication>, genders: GenderEnums)
    : (r: Result<Option<PrescriptionResponse>, Failure>)
    ensures entity.None? ==> r == Ok(None)
    ensures entity.Some? ==> (r.Ok? <==> Dto(entity.value, patients, medications, genders).Ok?)
    ensures entity.Some? && r.Ok? ==> r.value == Some(Dto(entity.value, patients, medications, genders).value)
  {
    match entity
    case None => Ok(None)
    case Some(e) =>
      var d :- Dto(e, patients, medications, genders);
      Ok(Some(d))
  }

  /** `toResponseList`: null stays null; otherwise one response per
      prescription, in order, or the first exception. */
  function ToResponseList(domains: Option<seq<Prescription>>, patients: map<int, Patient>, medications: map<int, Medication>,
                          genders: GenderEnums)
    : (r: Result<Option<seq<PrescriptionResponse>>, Failure>)
    ensures domains.None? ==> r == Ok(None)
    ensures domains.Some? ==> (r.Ok? <==> forall i :: 0 <= i < |domains.value| ==> Dto(domains.value[i], patients, medications, genders).Ok?)
    ensures domains.Some? && r.Ok? ==> (r.value.Some? && |r.value.value| == |domains.value| &&
      forall i :: 0 <= i < |domains.value| ==> r.value.value[i] == Dto(domains.value[i], patients, medications, genders).value)
  {
    match domains
    case None => Ok(None)
    case Some(ds) =>
      var rs :- Paging.MapAll(ds, (p: Prescription) => Dto(p, patients, medications, genders));
      Ok(Some(rs))
  }

  // ------------------------------------------------------ updateEntity

  /** The prescription `updateEntity` leaves: each non-null request field
      overwrites, `lastModified` becomes now, nothing else changes. */
  function Merged(e: Prescription, d: PrescriptionRequest, now: Timestamp): Prescription {
    e.(prescriptionNumber := Pick(d.prescriptionNumber, e.prescriptionNumber),
       prescriptionDate := Pick(d.prescriptionDate, e.prescriptionDate),
       doctorName := Pick(d.doctorName, e.doctorName),
       doctorLicense := Pick(d.doctorLicense, e.doctorLicense),
       notes := Pick(d.notes, e.notes),
       validUntil := Pick(d.validUntil, e.validUntil),
       isFilled := Pick(d.isFilled, e.isFilled),
       lastModified := Some(now))
  }

  /** `updateEntity(entity, dto)`, setter by setter; a null argument makes
      it a no-op. */
  method UpdateEntity(entity: Option<Prescription>, dto: Option<PrescriptionRequest>, now: Timestamp)
    returns (updated: Option<Prescription>)
    ensures entity.None? || dto.None? ==> updated == entity
    ensures entity.Some? && dto.Some? ==> updated == Some(Merged(entity.value, dto.value, now))
  {
    if entity.None? || dto.None? {
      return entity;
    }
    var e, d := entity.value, dto.value;
    e := e.(prescriptionNumber := Pick(d.prescriptionNumber, e.prescriptionNumber));
    e := e.(prescriptionDate := Pick(d.prescriptionDate, e.prescriptionDate));
    e := e.(doctorName := Pick(d.doctorName, e.doctorName));
    e := e.(doctorLicense := Pick(d.doctorLicense, e.doctorLicense));
    e := e.(notes := Pick(d.notes, e.notes));
    e := e.(validUntil := Pick(d.validUntil, e.validUntil));
    e := e.(isFilled := Pick(d.isFilled, e.isFilled));
    e := e.(lastModified := Some(now));
    return Some(e);
  }

  /** The merge never touches identity, status, version, creation time,
      patient or links, and a request with no field set only refreshes
      `lastModified`. */
  lemma MergeKeepsIdentity(e: Prescription, d: PrescriptionRequest, now: Timestamp)
    ensures var m := Merged(e, d, now);
            && m.id == e.id && m.active == e.active && m.version == e.version
            && m.createdDate == e.createdDate && m.patient == e.patient
            && m.medications == e.medications && m.lastModified == Some(now)
    ensures d == PrescriptionRequest(d.patientId, None, None, None, None, None, None, None) ==>
              Merged(e, d, now) == e.(lastModified := Some(now))
  {
  }

  /** A prescription built from a request, then merged with the same
      request, has the same content. */
  lemma {:induction false} MergeAfterCreate(d: PrescriptionRequest, now: Timestamp, later: Timestamp)
    ensures Merged(ToEntity(Some(d), now).value, d, later) == ToEntity(Some(d), now).value.(lastModified := Some(later))
  {
    var e := ToEntity(Some(d), now).value;
    assert e.prescriptionNumber == d.prescriptionNumber && e.isFilled == d.isFilled;
  }
}
