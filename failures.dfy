/** The exceptions the services throw, one constructor per distinct cause. */
module Failures {

  /** Which table a lookup missed. */
  datatype Kind = PatientKind | MedicationKind | PrescriptionKind | AnyEntity

  datatype Failure =
    | NotFound(kind: Kind, id: int)
      /** `createPrescription` without a patient id. */
    | PatientIdRequired
      /** `createPrescription` whose patient (or its id) is null. */
    | PatientRequired
      /** The medication is already on the prescription. */
    | AlreadyAssociated
      /** `Enum.valueOf` of a name the enum does not declare. */
    | NoSuchEnumConstant(name: string)
      /** A dereferenced null. */
    | NullPointer
      /** `PageRequest.of` with a negative page or a size below one. */
    | IllegalArgument
      /** `PersonDomain.isValid()` was false. */
    | InvalidPersonData
    | InvalidEmailFormat(email: string)
    | InvalidAge(age: int)
      /** An active patient already has this email. */
    | EmailTaken(email: string)
      /** A single-result query matched more than one row. */
    | IncorrectResultSize
      /** An array read past its end. */
    | IndexOutOfBounds
}
