/** The entities and transfer objects both services share: the domain classes
    (`PatientDomain`, `MedicationDomain`, `PrescriptionDomain`,
    `PrescriptionMedicationDomain`) and the generated request and response
    DTOs. Every Java reference-typed field is an `Option` (None is null);
    an entity refers to another entity by its id. */
module ClinicaDomain {
  import opened Wrappers

  /** `LocalDate`, as a day number. */
  type Date = int
  /** `LocalDateTime`, as an instant. */
  type Timestamp = int

  // ------------------------------------------------------------ enums

  /** The domain `BloodType` enum. */
  datatype DomainBloodType =
    | APositive | ANegative | BPositive | BNegative
    | AbPositive | AbNegative | OPositive | ONegative
  {
    function Name(): string {
      match this
      case APositive => "A_POSITIVE"   case ANegative => "A_NEGATIVE"
      case BPositive => "B_POSITIVE"   case BNegative => "B_NEGATIVE"
      case AbPositive => "AB_POSITIVE" case AbNegative => "AB_NEGATIVE"
      case OPositive => "O_POSITIVE"   case ONegative => "O_NEGATIVE"
    }
  }

  /** The DTO `BloodType` enum; it declares the same eight constants. */
  datatype DtoBloodType =
    | APositive | ANegative | BPositive | BNegative
    | AbPositive | AbNegative | OPositive | ONegative
  {
    function Name(): string {
      match this
      case APositive => "A_POSITIVE"   case ANegative => "A_NEGATIVE"
      case BPositive => "B_POSITIVE"   case BNegative => "B_NEGATIVE"
      case AbPositive => "AB_POSITIVE" case AbNegative => "AB_NEGATIVE"
      case OPositive => "O_POSITIVE"   case ONegative => "O_NEGATIVE"
    }
  }

  /** `DomainBloodType.valueOf(name)`; None where Java throws. */
  function DomainBloodTypeValueOf(name: string): (r: Option<DomainBloodType>)
    ensures r.Some? ==> r.value.Name() == name
  {
    if name == "A_POSITIVE" then Some(DomainBloodType.APositive)
    else if name == "A_NEGATIVE" then Some(DomainBloodType.ANegative)
    else if name == "B_POSITIVE" then Some(DomainBloodType.BPositive)
    else if name == "B_NEGATIVE" then Some(DomainBloodType.BNegative)
    else if name == "AB_POSITIVE" then Some(DomainBloodType.AbPositive)
    else if name == "AB_NEGATIVE" then Some(DomainBloodType.AbNegative)
    else if name == "O_POSITIVE" then Some(DomainBloodType.OPositive)
    else if name == "O_NEGATIVE" then Some(DomainBloodType.ONegative)
    else None
  }

  /** `DtoBloodType.valueOf(name)`; None where Java throws. */
  function DtoBloodTypeValueOf(name: string): (r: Option<DtoBloodType>)
    ensures r.Some? ==> r.value.Name() == name
  {
    if name == "A_POSITIVE" then Some(DtoBloodType.APositive)
    else if name == "A_NEGATIVE" then Some(DtoBloodType.ANegative)
    else if name == "B_POSITIVE" then Some(DtoBloodType.BPositive)
    else if name == "B_NEGATIVE" then Some(DtoBloodType.BNegative)
    else if name == "AB_POSITIVE" then Some(DtoBloodType.AbPositive)
    else if name == "AB_NEGATIVE" then Some(DtoBloodType.AbNegative)
    else if name == "O_POSITIVE" then Some(DtoBloodType.OPositive)
    else if name == "O_NEGATIVE" then Some(DtoBloodType.ONegative)
    else None
  }

  /** Every domain blood-type name is a DTO constant, and back; names are
      distinct within each enum. */
  lemma DtoNamesCoverDomain(b: DomainBloodType)
    ensures DtoBloodTypeValueOf(b.Name()).Some?
  {
    match b
    case APositive => case ANegative => case BPositive => case BNegative =>
    case AbPositive => case AbNegative => case OPositive => case ONegative =>
  }

  lemma DomainNamesCoverDto(b: DtoBloodType)
    ensures DomainBloodTypeValueOf(b.Name()).Some?
  {
    match b
    case APositive => case ANegative => case BPositive => case BNegative =>
    case AbPositive => case AbNegative => case OPositive => case ONegative =>
  }

  lemma DomainNamesDistinct(a: DomainBloodType, b: DomainBloodType)
    requires a.Name() == b.Name()
    ensures a == b
  {
  }

  lemma DtoNamesDistinct(a: DtoBloodType, b: DtoBloodType)
    requires a.Name() == b.Name()
    ensures a == b
  {
  }

  /** The two `Gender` enums belong to a library this model does not see,
      so a gender is the name of its constant and the constants each enum
      declares are a parameter. `valueOf` succeeds exactly on a declared name. */
  datatype GenderEnums = GenderEnums(domain: set<string>, dto: set<string>)

  // --------------------------------------------------------- entities

  datatype Patient = Patient(
    id: Option<int>,
    firstName: Option<string>,
    lastName: Option<string>,
    documentType: Option<string>,
    documentNumber: Option<string>,
    email: Option<string>,
    birthDate: Option<Date>,
    phone: Option<string>,
    allergyNotes: Option<string>,
    chronicConditions: Option<string>,
    gender: Option<string>,
    bloodType: Option<DomainBloodType>,
    active: bool,
    createdAt: Option<Timestamp>,
    updatedAt: Option<Timestamp>)

  /** What the domain library computes from a patient and this model leaves
      uninterpreted: `getFullName()`, `getAge()`, `isValid()`. */
  datatype PersonRules = PersonRules(
    fullName: Patient -> Option<string>,
    age: Patient -> Option<int>,
    isValid: Patient -> bool)

  datatype Medication = Medication(
    id: Option<int>,
    medicationName: Option<string>,
    genericName: Option<string>,
    medicationType: Option<string>,
    manufacturer: Option<string>,
    description: Option<string>,
    sideEffects: Option<string>,
    contraindications: Option<string>,
    active: bool,
    version: Option<int>,
    createdDate: Option<Timestamp>,
    lastModified: Option<Timestamp>)

  /** A `PrescriptionMedicationDomain` join row: one medication on one
      prescription, with its dosage details. */
  datatype Link = Link(
    id: Option<int>,
    medication: int,
    dosage: Option<string>,
    frequency: Option<string>,
    duration: Option<string>,
    instructions: Option<string>,
    quantity: Option<int>,
    active: bool,
    createdDate: Option<Timestamp>,
    lastModified: Option<Timestamp>)

  /** The patient a prescription points to; the object itself may lack an id. */
  datatype PatientRef = PatientRef(id: Option<int>)

  datatype Prescription = Prescription(
    id: Option<int>,
    prescriptionNumber: Option<string>,
    prescriptionDate: Option<Date>,
    doctorName: Option<string>,
    doctorLicense: Option<string>,
    notes: Option<string>,
    validUntil: Option<Date>,
    isFilled: Option<bool>,
    active: bool,
    version: Option<int>,
    createdDate: Option<Timestamp>,
    lastModified: Option<Timestamp>,
    patient: Option<PatientRef>,
    medications: Option<seq<Link>>)

  /** `new PatientDomain()` and friends: every field null. */
  const NewPatient := Patient(None, None, None, None, None, None, None, None, None, None, None, None, false, None, None)
  const NewMedication := Medication(None, None, None, None, None, None, None, None, false, None, None, None)
  const NewPrescription := Prescription(None, None, None, None, None, None, None, None, false, None, None, None, None, None)

  // ---------------------------------------------------- request DTOs

  datatype PatientRequest = PatientRequest(
    firstName: Option<string>,
    lastName: Option<string>,
    documentNumber: Option<string>,
    email: Option<string>,
    birthDate: Option<Date>,
    phone: Option<string>,
    allergyNotes: Option<string>,
    chronicConditions: Option<string>,
    gender: Option<string>,
    bloodType: Option<DtoBloodType>)

  datatype MedicationRequest = MedicationRequest(
    medicationName: Option<string>,
    genericName: Option<string>,
    medicationType: Option<string>,
    manufacturer: Option<string>,
    description: Option<string>,
    sideEffects: Option<string>,
    contraindications: Option<string>)

  datatype PrescriptionRequest = PrescriptionRequest(
    patientId: Option<int>,
    prescriptionNumber: Option<string>,
    prescriptionDate: Option<Date>,
    doctorName: Option<string>,
    doctorLicense: Option<string>,
    notes: Option<string>,
    validUntil: Option<Date>,
    isFilled: Option<bool>)

  datatype LinkRequest = LinkRequest(
    dosage: Option<string>,
    frequency: Option<string>,
    duration: Option<string>,
    instructions: Option<string>,
    quantity: Option<int>)

  // --------------------------------------------------- response DTOs

  datatype PatientResponse = PatientResponse(
    id: Option<int>,
    active: Option<bool>,
    createdDate: Option<Timestamp>,
    lastModified: Option<Timestamp>,
    firstName: Option<string>,
    lastName: Option<string>,
    documentNumber: Option<string>,
    email: Option<string>,
    birthDate: Option<Date>,
    phone: Option<string>,
    allergyNotes: Option<string>,
    chronicConditions: Option<string>,
    fullName: Option<string>,
    age: Option<int>,
    gender: Option<string>,
    bloodType: Option<DtoBloodType>,
    prescriptions: Option<seq<PrescriptionResponse>>)

  datatype MedicationResponse = MedicationResponse(
    id: Option<int>,
    active: Option<bool>,
    version: Option<int>,
    createdDate: Option<Timestamp>,
    lastModified: Option<Timestamp>,
    medicationName: Option<string>,
    genericName: Option<string>,
    medicationType: Option<string>,
    manufacturer: Option<string>,
    description: Option<string>,
    sideEffects: Option<string>,
    contraindications: Option<string>,
    prescriptionCount: Option<int>)

  datatype LinkResponse = LinkResponse(
    id: Option<int>,
    dosage: Option<string>,
    frequency: Option<string>,
    duration: Option<string>,
    instructions: Option<string>,
    quantity: Option<int>,
    active: Option<bool>,
    medication: Option<MedicationResponse>)

  datatype PrescriptionResponse = PrescriptionResponse(
    id: Option<int>,
    active: Option<bool>,
    version: Option<int>,
    createdDate: Option<Timestamp>,
    lastModified: Option<Timestamp>,
    prescriptionNumber: Option<string>,
    prescriptionDate: Option<Date>,
    doctorName: Option<string>,
    doctorLicense: Option<string>,
    notes: Option<string>,
    validUntil: Option<Date>,
    isFilled: Option<bool>,
    patient: Option<PatientResponse>,
    medications: Option<seq<LinkResponse>>)

  /** `new PatientResponse()` and friends: every field null. */
  const NewPatientResponse := PatientResponse(None, None, None, None, None, None, None, None, None, None, None, None, None, None, None, None, None)
  const NewMedicationResponse := MedicationResponse(None, None, None, None, None, None, None, None, None, None, None, None, None)
  const NewLinkResponse := LinkResponse(None, None, None, None, None, None, None, None)
}
