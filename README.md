# Patients service — a Dafny model

This project models the business core of a Spring Boot microservice for a
clinic. The service keeps patients, medications and prescriptions. A
prescription belongs to one patient and holds a collection of
prescription-medication rows. Each row carries a dosage, a frequency, a
duration, instructions, a quantity and its own active flag. Nothing is ever
physically removed by the services: a delete clears the row's `active`
flag, and every query reads active rows only.

The repository holds two versions of the service side by side, and both
are modelled, each in its own modules.

- `com.fiuni.patients` (modules `Fiuni*`): a generic base service, three
  mappers between entities and request/response DTOs, three repositories
  of JPQL queries, and three services. The prescription service manages
  the prescription-medication rows by ids.
- `com.example.patients` (modules `Example*`): a generic base service and
  a person service that validates names, emails and ages. It also has a
  ModelMapper-based medication mapper, derived-query repositories, three
  services, and the helper that turns a pagination request into a
  `Pageable`.

Shared modules:

- `ClinicaDomain`: the entities and DTOs of the clinic domain library both
  trees use. Nullable Java fields are `Option`s, except a
  prescription-medication row's medication, which is a plain id (see
  "Left out").
- `Jpa`: a `JpaRepository` as a class `Table` holding `rows: map<int, E>`
  and the next generated id. It has `save`, the transaction rollback and
  `deleteById`, plus the paged queries and the soft delete as functions.
- `Paging`: `PageRequest`, `Page` and its mapping.
- `RowOrder`: the ids of a table in ascending or descending order.
- `JavaText`: `trim`, `isBlank`, case folding, substring tests and
  `String.split(",")`.
- `Failures`: the exceptions the services throw.
- `Wrappers`: `Option` and `Result`.

Services are classes whose constant fields are the repositories they are
injected with. Operations that write are methods with `modifies` clauses.
Each one states the whole new table in terms of the old one. Read-only
operations are functions with `reads` clauses. Every exception the code
throws on the inputs the model admits is a `Fail` result.

Some values the code gets from outside are parameters of the model:

- the clock is a `now: Timestamp` argument;
- a new prescription-medication row's database id is a `linkId` argument;
- the gender constants of the domain library's two enums are a
  `GenderEnums` value;
- the domain library's `isValid`, `getAge` and `getFullName` are the
  `PersonRules` / `PersonView` values.

## Model

| member | source | states |
|---|---|---|
| ClinicaDomain.DomainBloodTypeValueOf | src/main/java/com/fiuni/patients/mapper/PatientMapper.java:40-47 | `BloodType.valueOf(name)` on the domain enum: a constant is returned only for its own name |
| ClinicaDomain.DtoBloodTypeValueOf | src/main/java/com/fiuni/patients/mapper/PatientMapper.java:28-35 | `BloodType.valueOf(name)` on the DTO enum: a constant is returned only for its own name |
| ClinicaDomain.DtoNamesCoverDomain | src/main/java/com/fiuni/patients/mapper/PatientMapper.java:22-26 | every domain blood type's name names a DTO blood type, so the domain-to-DTO conversion never throws |
| ClinicaDomain.DomainNamesCoverDto | src/main/java/com/fiuni/patients/mapper/PatientMapper.java:22-26 | every DTO blood type's name names a domain blood type, so the DTO-to-domain conversion never throws |
| ClinicaDomain.DomainNamesDistinct | src/main/java/com/fiuni/patients/mapper/PatientMapper.java:22-26 | two domain blood types with the same name are the same constant |
| ClinicaDomain.DtoNamesDistinct | src/main/java/com/fiuni/patients/mapper/PatientMapper.java:22-26 | two DTO blood types with the same name are the same constant |
| ExampleBaseService.ToDtoList | src/main/java/com/example/patients/service/base/AbstractBaseService.java:74-77 | mapping a list keeps its length and maps each element in place |
| ExampleBaseService.AbstractBaseService.constructor | src/main/java/com/example/patients/service/base/AbstractBaseService.java:26 | the service keeps the repository and mapper it is given |
| ExampleBaseService.AbstractBaseService.Save | src/main/java/com/example/patients/service/base/AbstractBaseService.java:34-39 | the mapped entity is saved (inserted under the next id, or overwriting the row its id names) and the saved row is mapped back |
| ExampleBaseService.AbstractBaseService.FindById | src/main/java/com/example/patients/service/base/AbstractBaseService.java:45-49 | present exactly when a row with that id exists, active or not, and then the mapping of that row |
| ExampleBaseService.AbstractBaseService.FindByIdOrThrow | src/main/java/com/example/patients/service/base/AbstractBaseService.java:55-58 | not found exactly when no row has the id; otherwise the same answer as `findById` |
| ExampleBaseService.AbstractBaseService.FindAllPage | src/main/java/com/example/patients/service/base/AbstractBaseService.java:64-68 | the page counts every row, holds at most a page size of them, keeps the pageable, and is the mapping of the slice the pageable selects from all rows, ascending id, or largest id first under `id DESC` |
| ExampleBaseService.MappedRows | src/main/java/com/example/patients/service/base/AbstractBaseService.java:74-77 | the mapped list of all rows holds each row's mapping, entry `i` being the mapping of the row with the `i`-th smallest id |
| ExampleBaseService.AbstractBaseService.FindAll | src/main/java/com/example/patients/service/base/AbstractBaseService.java:74-77 | one mapped element per row, every row's mapping present, and entry `i` the mapping of the row with the `i`-th smallest id |
| ExampleBaseService.AbstractBaseService.DeleteById | src/main/java/com/example/patients/service/base/AbstractBaseService.java:82-91 | not found exactly for a missing id, with nothing changed; otherwise the row is removed and nothing else changes |
| ExampleBaseService.AbstractBaseService.Exists | src/main/java/com/example/patients/service/base/AbstractBaseService.java:97-99 | true exactly when `findById` finds the row |
| ExampleBaseService.AbstractBaseService.Count | src/main/java/com/example/patients/service/base/AbstractBaseService.java:105-107 | the length of `findAll` |
| ExampleBaseService.AbstractBaseService.Update | src/main/java/com/example/patients/service/base/AbstractBaseService.java:112-122 | not found for a missing id with nothing changed; otherwise the mapped DTO is saved as given, and its own id decides which row it lands in |
| ExampleBaseService.UpdateWithoutIdInserts | src/main/java/com/example/patients/service/base/AbstractBaseService.java:112-122 | an update whose DTO carries no stored id leaves the row it was meant for untouched and inserts a new row under the next id |
| ExampleBaseService.DeleteRemovesOne | src/main/java/com/example/patients/service/base/AbstractBaseService.java:82-91 | after a hard delete the id is gone, the table has one row fewer, and every other lookup is unchanged |
| ExampleMedicationMapper.CopiedOnto | src/main/java/com/example/patients/mapper/MedicationMapper.java:99-100 | copying a request onto a medication never changes its id, active flag, version or audit dates |
| ExampleMedicationMapper.FreshCopyIgnoresSkipNull | src/main/java/com/example/patients/mapper/MedicationMapper.java:37 | mapping onto a fresh medication gives the same entity whatever the skip-null setting, and it carries the request's fields |
| ExampleMedicationMapper.ModelMapper.constructor | src/main/java/com/example/patients/config/MapperConfig.java:20-30 | the configured mapper starts with skip-null on |
| ExampleMedicationMapper.ModelMapper.SetSkipNullEnabled | src/main/java/com/example/patients/mapper/MedicationMapper.java:99 | the skip-null setting afterwards is the one given |
| ExampleMedicationMapper.ModelMapper.MapOnto | src/main/java/com/example/patients/mapper/MedicationMapper.java:100 | the copy follows the current skip-null setting |
| ExampleMedicationMapper.NewEntity | src/main/java/com/example/patients/mapper/MedicationMapper.java:37 | a new medication carries the request's fields and has no id, version or audit dates and is inactive |
| ExampleMedicationMapper.RequestToEntity | src/main/java/com/example/patients/mapper/MedicationMapper.java:30-46 | null exactly for a null request; otherwise the request's fields, active, both dates set to now, no id and no version |
| ExampleMedicationMapper.ToDto | src/main/java/com/example/patients/mapper/MedicationMapper.java:51-61 | null exactly for a null entity; otherwise every field is carried over and the active flag is boxed |
| ExampleMedicationMapper.CreatedMedicationReadsBack | src/main/java/com/example/patients/mapper/MedicationMapper.java:30-61 | a request mapped to an entity and back reads back all its fields and comes out active |
| ExampleMedicationMapper.ToEntity | src/main/java/com/example/patients/mapper/MedicationMapper.java:66-79 | null exactly for a null request; otherwise the request's fields under the given id, last modified now, no creation date, inactive |
| ExampleMedicationMapper.UpdateKeepsAudit | src/main/java/com/example/patients/mapper/MedicationMapper.java:92-107 | an update keeps id, creation date, active flag and version, sets last modified to now, and takes each request field only where it is not null |
| ExampleMedicationMapper.UpdateIdempotent | src/main/java/com/example/patients/mapper/MedicationMapper.java:85-113 | applying the same update twice is applying it once, and a request with every field set replaces all of them |
| ExampleMedicationMapper.MedicationMapper.constructor | src/main/java/com/example/patients/mapper/MedicationMapper.java:22-25 | the mapper keeps the model mapper it is given |
| ExampleMedicationMapper.MedicationMapper.UpdateEntityFromRequest | src/main/java/com/example/patients/mapper/MedicationMapper.java:85-113 | a null entity throws before the guard; a null request leaves the entity as it is; otherwise the null-skipping merge with last modified set to now, and skip-null is left off |
| ExampleMedicationRepository.FindByActiveTruePage | src/main/java/com/example/patients/repository/MedicationRepository.java:24 | a page of active medications whose total counts all active ones, and which is the slice the pageable selects from them ascending id, or largest id first under `id DESC` |
| ExampleMedicationRepository.FindByIdAndActiveTrue | src/main/java/com/example/patients/repository/MedicationRepository.java:29 | present exactly for an active row with that id, and then that row |
| ExampleMedicationRepository.FindByMedicationNameContainingIgnoreCaseAndActiveTrue | src/main/java/com/example/patients/repository/MedicationRepository.java:34 | every element is active and its name contains the term ignoring case; the total counts exactly such rows; the page is the slice the pageable selects from them, ascending id, or largest id first under `id DESC`; a null term matches nothing |
| ExampleMedicationRepository.FindByManufacturerContainingIgnoreCaseAndActiveTrue | src/main/java/com/example/patients/repository/MedicationRepository.java:39 | as the name search, on the manufacturer: the matching rows counted and sliced by the pageable |
| ExampleMedicationRepository.FindByGenericNameContainingIgnoreCaseAndActiveTrue | src/main/java/com/example/patients/repository/MedicationRepository.java:44 | as the name search, on the generic name: the matching rows counted and sliced by the pageable |
| ExampleMedicationRepository.FindByMedicationTypeAndActiveTrue | src/main/java/com/example/patients/repository/MedicationRepository.java:49 | exact match on the type, where a null type matches rows with no type; the total counts exactly such rows and the page is the pageable's slice of them |
| ExampleMedicationRepository.ExistsByIdAndActiveTrue | src/main/java/com/example/patients/repository/MedicationRepository.java:54 | true exactly when the id lookup finds an active row |
| ExampleMedicationRepository.SearchByMedicationNameOrGenericName | src/main/java/com/example/patients/repository/MedicationRepository.java:59-64 | the matching rows largest id first, cut into the requested page; the total counts every match |
| ExampleMedicationRepository.FoldsAgree | src/main/java/com/example/patients/repository/MedicationRepository.java:59-64 | `UPPER` and `LOWER` make the same characters equal |
| ExampleMedicationRepository.UpperContainsIffLower | src/main/java/com/example/patients/repository/MedicationRepository.java:59-64 | a substring test after `UPPER` agrees with one after `LOWER` |
| ExampleMedicationRepository.SearchIsUnionOfNameSearches | src/main/java/com/example/patients/repository/MedicationRepository.java:59-64 | the JPQL search matches exactly the active medications that the name search or the generic-name search matches |
| ExampleMedicationRepository.SearchNewestFirst | src/main/java/com/example/patients/repository/MedicationRepository.java:59-64 | entry `i` of the search page is the match with the `(page * size + i)`-th largest id, the page holds every match left from there up to its size, and the ids run strictly decreasing |
| ExampleMedicationRepository.CountByActiveTrue | src/main/java/com/example/patients/repository/MedicationRepository.java:69 | the number of active rows, equal to the length of the unpaged list |
| ExampleMedicationRepository.FindByActiveTrue | src/main/java/com/example/patients/repository/MedicationRepository.java:74 | every active medication exactly once and nothing inactive |
| ExampleMedicationService.Deactivated | src/main/java/com/example/patients/service/MedicationService.java:122 | `setActive(false)` clears the flag and changes nothing else |
| ExampleMedicationService.DeleteThenGetIsEmpty | src/main/java/com/example/patients/service/MedicationService.java:115-126 | after a delete the medication is neither found nor reported as existing, and a second delete changes nothing |
| ExampleMedicationService.MedicationService.constructor | src/main/java/com/example/patients/service/MedicationService.java:22-28 | the service keeps its repository and mapper |
| ExampleMedicationService.MedicationService.GetAllMedications | src/main/java/com/example/patients/service/MedicationService.java:34-37 | a page of active medications counting all of them: the pageable's slice of the active rows, ascending id, or largest id first under `id DESC` |
| ExampleMedicationService.MedicationService.GetMedicationById | src/main/java/com/example/patients/service/MedicationService.java:43-46 | present exactly for an active medication |
| ExampleMedicationService.MedicationService.SearchMedicationsByName | src/main/java/com/example/patients/service/MedicationService.java:52-55 | every element is active and matches the name; the total counts every match and the page is the pageable's slice of them |
| ExampleMedicationService.MedicationService.SearchMedicationsByManufacturer | src/main/java/com/example/patients/service/MedicationService.java:61-64 | every element is active and matches the manufacturer; the total counts every match and the page is the pageable's slice of them |
| ExampleMedicationService.MedicationService.SearchMedicationsByGenericName | src/main/java/com/example/patients/service/MedicationService.java:70-73 | every element is active and matches the generic name; the total counts every match and the page is the pageable's slice of them |
| ExampleMedicationService.MedicationService.CreateMedication | src/main/java/com/example/patients/service/MedicationService.java:78-90 | a null request fails with nothing stored; otherwise the new active medication is stored under the next id and read back |
| ExampleMedicationService.MedicationService.UpdateMedication | src/main/java/com/example/patients/service/MedicationService.java:95-110 | not found exactly without an active medication, with nothing changed; otherwise only that row changes, to the request's non-null fields, and a successful update with a request leaves the shared ModelMapper's skip-null setting off |
| ExampleMedicationService.MedicationService.DeleteMedication | src/main/java/com/example/patients/service/MedicationService.java:115-126 | the soft delete: fails exactly when there was no active medication, otherwise only its flag is cleared |
| ExampleMedicationService.MedicationService.ExistsById | src/main/java/com/example/patients/service/MedicationService.java:132-134 | true exactly when `getMedicationById` finds it |
| ExamplePagination.PaginationRequestOf | src/main/java/com/example/patients/dto/PaginationRequest.java:39-42 | the two-argument constructor keeps page and size and leaves the sort unset |
| ExamplePagination.ValidRequestPages | src/main/java/com/example/patients/dto/PaginationRequest.java:21-34 | a request within its validation bounds whose sort tokens are all parseable always gives a pageable, an unset sort gives an unsorted one, and the defaults give the pageable of a null request |
| ExamplePagination.ParseToken | src/main/java/com/example/patients/util/PaginationUtil.java:46-67 | a sort token fails only with index out of bounds (a token of commas only) or with an illegal argument (a property of whitespace only, which `Sort.Order` refuses) |
| ExamplePagination.ParsedFieldIsName | src/main/java/com/example/patients/util/PaginationUtil.java:52-56 | a parsed sort property is trimmed, has no comma and is not empty |
| ExamplePagination.SortOf | src/main/java/com/example/patients/util/PaginationUtil.java:39-71 | the sort fails only with index out of bounds or an illegal argument, and never has more orders than tokens |
| ExamplePagination.ParseTokenFailsIff | src/main/java/com/example/patients/util/PaginationUtil.java:51-52 | a token fails with index out of bounds exactly when it is non-empty and made of commas only, with an illegal argument exactly when its trimmed property is non-empty but has no text, and fails exactly in one of those two cases |
| ExamplePagination.CommasOnlyShape | src/main/java/com/example/patients/util/PaginationUtil.java:51-52 | a token is made of commas only exactly when it is not blank and `split(",")` leaves nothing of it |
| ExamplePagination.NoTextFieldShape | src/main/java/com/example/patients/util/PaginationUtil.java:51-56 | a token has a property without text exactly when it is not blank, `split(",")` leaves a first part, and that part trims to a non-empty text of whitespace only |
| ExamplePagination.SortOfFailsIff | src/main/java/com/example/patients/util/PaginationUtil.java:46-68 | the whole sort fails exactly when some token is made of commas only or has a property without text |
| ExamplePagination.SortedFieldsAreNames | src/main/java/com/example/patients/util/PaginationUtil.java:52-56 | every property of a successful sort is a proper field name |
| ExamplePagination.SortOfAppend | src/main/java/com/example/patients/util/PaginationUtil.java:44-68 | the sort of two token lists put together is the two sorts put together, the first failure winning |
| ExamplePagination.SortOfOne | src/main/java/com/example/patients/util/PaginationUtil.java:46-67 | a single token gives its own order, none for a blank token, or its failure |
| ExamplePagination.FailureIsFinal | src/main/java/com/example/patients/util/PaginationUtil.java:51-52 | one failing token makes the whole sort fail, and when every token before it parses, with that token's own error |
| ExamplePagination.TokenParts | src/main/java/com/example/patients/util/PaginationUtil.java:51-65 | the property is the trimmed first comma part, and the direction is descending exactly when a second part trims to `desc` ignoring case |
| ExamplePagination.FieldIsBeforeFirstComma | src/main/java/com/example/patients/util/PaginationUtil.java:51-52 | the property is the trimmed text before the first comma |
| ExamplePagination.SortToken | src/main/java/com/example/patients/util/PaginationUtil.java:46-67 | the loop body parses one token as the specification function does |
| ExamplePagination.CreateSort | src/main/java/com/example/patients/util/PaginationUtil.java:39-71 | the loop builds exactly the sort the specification function defines, an unset list giving the empty sort |
| ExamplePagination.PageableOf | src/main/java/com/example/patients/util/PaginationUtil.java:21-33 | a null request gives page 0 of 20 unsorted; otherwise the unset parts default, a bad sort fails with the sort's own error, a bad bound fails, and the result keeps the page, size and sort |
| ExamplePagination.ToPageable | src/main/java/com/example/patients/util/PaginationUtil.java:21-33 | the method returns exactly the pageable the specification function defines |
| ExamplePatientRepository.FindByIdAndIsActiveTrue | src/main/java/com/example/patients/repository/PatientRepository.java:18-19 | present exactly for an active patient with that id |
| ExamplePatientRepository.FindByIsActiveTrue | src/main/java/com/example/patients/repository/PatientRepository.java:21-22 | a page of active patients counting all of them: the pageable's slice of the active rows, ascending id, or largest id first under `id DESC` |
| ExamplePatientRepository.FindByEmailAndIsActiveTrue | src/main/java/com/example/patients/repository/PatientRepository.java:25-26 | empty when no active patient has the email, a result-size error when more than one has it, otherwise that patient |
| ExamplePatientRepository.NullEmailFindsNobody | src/main/java/com/example/patients/repository/PatientRepository.java:25-26 | a null email finds nobody |
| ExamplePatientRepository.UniqueEmailsLookUp | src/main/java/com/example/patients/repository/PatientRepository.java:25-26 | while active emails are unique the lookup never fails |
| ExamplePatientRepository.FindByNameContainingIgnoreCaseAndIsActiveTrue | src/main/java/com/example/patients/repository/PatientRepository.java:29-32 | every element is active and its first or last name contains the term ignoring case; the total counts every such patient and the page is the pageable's slice of them |
| ExamplePatientRepository.EmptyNameMatchesNamedPatients | src/main/java/com/example/patients/repository/PatientRepository.java:29-32 | an empty term matches every active patient with a first name |
| ExamplePatientRepository.FindByGenderAndIsActiveTrue | src/main/java/com/example/patients/repository/PatientRepository.java:35-36 | every active patient of that gender, each once, and nobody else; a null gender finds nobody |
| ExamplePatientRepository.FindPatientsWithPrescriptionsAndIsActiveTrue | src/main/java/com/example/patients/repository/PatientRepository.java:39-40 | active patients with at least one prescription, the total counting all of them and the page being the pageable's slice of them |
| ExamplePatientRepository.ExistsByIdAndActiveTrue | src/main/java/com/example/patients/repository/PatientRepository.java:43-44 | true exactly when the id lookup finds an active patient |
| ExamplePatientService.Deactivated | src/main/java/com/example/patients/service/PatientService.java:107 | `setActive(false)` clears the flag and changes nothing else |
| ExamplePatientService.Overwritten | src/main/java/com/example/patients/service/PatientService.java:84-87 | the update copies first name, last name, email and gender, nulls included, and nothing else |
| ExamplePatientService.FreshEmailKeepsUnique | src/main/java/com/example/patients/service/PatientService.java:63-72 | creating a patient whose email no active patient has keeps active emails unique |
| ExamplePatientService.UpdateCanDuplicateEmail | src/main/java/com/example/patients/service/PatientService.java:77-95 | an update can give a patient another patient's email, after which the email lookup fails |
| ExamplePatientService.DeleteThenGetIsEmpty | src/main/java/com/example/patients/service/PatientService.java:100-111 | after a delete the patient is not found, and a second delete changes nothing |
| ExamplePatientService.PatientService.constructor | src/main/java/com/example/patients/service/PatientService.java:18-22 | the service keeps its repositories |
| ExamplePatientService.PatientService.GetAllPatients | src/main/java/com/example/patients/service/PatientService.java:28-31 | a page of active patients counting all of them: the pageable's slice of the active rows, ascending id, or largest id first under `id DESC` |
| ExamplePatientService.PatientService.GetPatientById | src/main/java/com/example/patients/service/PatientService.java:37-40 | present exactly for an active patient |
| ExamplePatientService.PatientService.GetPatientByEmail | src/main/java/com/example/patients/service/PatientService.java:46-49 | empty exactly when no active patient has the email, a result-size error exactly when more than one has it, otherwise that one patient |
| ExamplePatientService.PatientService.SearchPatientsByName | src/main/java/com/example/patients/service/PatientService.java:55-58 | every element matches the name, the total counts every match, the page is the pageable's slice of them, and a null name finds nobody |
| ExamplePatientService.PatientService.CreatePatient | src/main/java/com/example/patients/service/PatientService.java:63-72 | refused when an active patient already has the email, with nothing stored; otherwise stored active under the next id |
| ExamplePatientService.PatientService.UpdatePatient | src/main/java/com/example/patients/service/PatientService.java:77-95 | not found exactly without an active patient; otherwise only that row changes, overwritten by the request's four fields |
| ExamplePatientService.PatientService.DeletePatient | src/main/java/com/example/patients/service/PatientService.java:100-111 | the soft delete: fails exactly without an active patient, otherwise only its flag is cleared |
| ExamplePatientService.PatientService.GetPatientPrescriptions | src/main/java/com/example/patients/service/PatientService.java:117-124 | not found without an active patient; otherwise exactly the prescriptions pointing at that patient |
| ExamplePatientService.PatientService.ExistsPatient | src/main/java/com/example/patients/service/PatientService.java:130-132 | true exactly when `getPatientById` finds the patient |
| ExamplePersonService.LocalPrefix | src/main/java/com/example/patients/service/base/AbstractPersonService.java:59-61 | the longest prefix of characters allowed before `@` |
| ExamplePersonService.IsValidEmailMatchesPattern | src/main/java/com/example/patients/service/base/AbstractPersonService.java:59-61 | the email check agrees with the regular expression `^[A-Za-z0-9+_.-]+@(.+)$`, and a null email is not valid |
| ExamplePersonService.EmailExamples | src/main/java/com/example/patients/service/base/AbstractPersonService.java:59-61 | `a@b` passes and `@b`, `a@` and `a b@c` fail |
| ExamplePersonService.ValidatePersonData | src/main/java/com/example/patients/service/base/AbstractPersonService.java:40-54 | no error exactly for acceptable data; otherwise invalid data first, then a bad email, then an age outside 0-150, in the source's order |
| ExamplePersonService.NullEmailAndAgeBounds | src/main/java/com/example/patients/service/base/AbstractPersonService.java:47-53 | a null email is allowed, and with a valid or null email the age alone decides |
| ExamplePersonService.AbstractPersonService.constructor | src/main/java/com/example/patients/service/base/AbstractPersonService.java:21 | the service keeps its base service and person view |
| ExamplePersonService.AbstractPersonService.Save | src/main/java/com/example/patients/service/base/AbstractPersonService.java:67-71 | rejected data fails with nothing stored; otherwise the base save |
| ExamplePersonService.AbstractPersonService.Update | src/main/java/com/example/patients/service/base/AbstractPersonService.java:77-81 | rejected data fails with nothing stored; otherwise the base update |
| ExamplePrescriptionRepository.FindByIdAndActiveTrue | src/main/java/com/example/patients/repository/PrescriptionRepository.java:22-23 | present exactly for an active prescription with that id |
| ExamplePrescriptionRepository.FindByActiveTrue | src/main/java/com/example/patients/repository/PrescriptionRepository.java:25-26 | a page of active prescriptions counting all of them: the pageable's slice of the active rows, ascending id, or largest id first under `id DESC` |
| ExamplePrescriptionRepository.FindByPatientIdAndActiveTruePage | src/main/java/com/example/patients/repository/PrescriptionRepository.java:31-32 | a page of the patient's active prescriptions counting all of them: the pageable's slice of them, ascending id, or largest id first under `id DESC` |
| ExamplePrescriptionRepository.FindByPatientIdAndActiveTrue | src/main/java/com/example/patients/repository/PrescriptionRepository.java:37-38 | every active prescription of the patient and nothing else |
| ExamplePrescriptionRepository.CountByPatientIdAndActiveTrue | src/main/java/com/example/patients/repository/PrescriptionRepository.java:55-56 | the number of the patient's active prescriptions |
| ExamplePrescriptionRepository.NullPatientFindsNothing | src/main/java/com/example/patients/repository/PrescriptionRepository.java:31-38 | a null patient id finds and counts nothing |
| ExamplePrescriptionRepository.PatientsDoNotShare | src/main/java/com/example/patients/repository/PrescriptionRepository.java:31-38 | no prescription is listed for two different patients |
| ExamplePrescriptionRepository.FindPrescriptionsWithMedicationsAndActiveTrue | src/main/java/com/example/patients/repository/PrescriptionRepository.java:43-44 | every element is active and has at least one medication row; the total counts every such prescription and the page is the pageable's slice of them |
| ExamplePrescriptionRepository.FindByMedicationIdAndActiveTrueAsWritten | src/main/java/com/example/patients/repository/PrescriptionRepository.java:49-50 | the query as written (`SELECT DISTINCT`): each active prescription with a join row whose own id is the argument, once |
| ExamplePrescriptionRepository.FindByMedicationIdAndActiveTrue | src/main/java/com/example/patients/repository/PrescriptionRepository.java:49-50 | the query as intended: exactly the active prescriptions with a row for that medication, each once |
| ExamplePrescriptionRepository.JoinRowIdIsNotMedicationId | src/main/java/com/example/patients/repository/PrescriptionRepository.java:49-50 | a prescription whose row 7 is for medication 3 is missed when searching for 3 and found when searching for 7 |
| ExamplePrescriptionRepository.FindByPatientIdAndIsActiveTrue | src/main/java/com/example/patients/repository/PrescriptionRepository.java:61-62 | the same page as the other patient query |
| ExamplePrescriptionRepository.FindByIdAndIsActiveTrue | src/main/java/com/example/patients/repository/PrescriptionRepository.java:67-68 | present exactly for an active prescription with that id, and then that row |
| ExamplePrescriptionRepository.ExistsByIdAndIsActiveTrue | src/main/java/com/example/patients/repository/PrescriptionRepository.java:73-74 | true exactly when the id query finds an active prescription |
| ExamplePrescriptionService.Deactivated | src/main/java/com/example/patients/service/PrescriptionService.java:94 | `setActive(false)` clears the flag and changes nothing else |
| ExamplePrescriptionService.Reassigned | src/main/java/com/example/patients/service/PrescriptionService.java:67-82 | the update replaces the patient when the request names one and changes nothing else |
| ExamplePrescriptionService.ReassignIdempotent | src/main/java/com/example/patients/service/PrescriptionService.java:67-82 | applying the same update twice is applying it once |
| ExamplePrescriptionService.DeleteThenGetIsEmpty | src/main/java/com/example/patients/service/PrescriptionService.java:87-98 | after a delete the prescription is not found, and a second delete changes nothing |
| ExamplePrescriptionService.PrescriptionService.constructor | src/main/java/com/example/patients/service/PrescriptionService.java:20-26 | the service keeps its repository |
| ExamplePrescriptionService.PrescriptionService.GetAllPrescriptions | src/main/java/com/example/patients/service/PrescriptionService.java:32-35 | a page of active prescriptions counting all of them: the pageable's slice of the active rows, ascending id, or largest id first under `id DESC` |
| ExamplePrescriptionService.PrescriptionService.GetPrescriptionById | src/main/java/com/example/patients/service/PrescriptionService.java:41-44 | present exactly for an active prescription |
| ExamplePrescriptionService.PrescriptionService.CreatePrescription | src/main/java/com/example/patients/service/PrescriptionService.java:49-62 | refused exactly without a patient or patient id, with nothing stored; otherwise saved active, found again by its id |
| ExamplePrescriptionService.PrescriptionService.UpdatePrescription | src/main/java/com/example/patients/service/PrescriptionService.java:67-82 | not found exactly without an active prescription; otherwise only that row changes, reassigned |
| ExamplePrescriptionService.PrescriptionService.DeletePrescription | src/main/java/com/example/patients/service/PrescriptionService.java:87-98 | the soft delete: fails exactly without an active prescription, otherwise only its flag is cleared |
| ExamplePrescriptionService.PrescriptionService.GetPrescriptionMedications | src/main/java/com/example/patients/service/PrescriptionService.java:104-117 | not found without an active prescription; otherwise always the empty list |
| ExamplePrescriptionService.PrescriptionService.AddMedicationToPrescription | src/main/java/com/example/patients/service/PrescriptionService.java:122-137 | not found exactly without an active prescription; nothing is stored either way |
| ExamplePrescriptionService.PrescriptionService.RemoveMedicationFromPrescription | src/main/java/com/example/patients/service/PrescriptionService.java:142-153 | the same lookup and answer as adding |
| ExamplePrescriptionService.PrescriptionService.GetPrescriptionsByPatient | src/main/java/com/example/patients/service/PrescriptionService.java:159-162 | only the patient's active prescriptions, counting all of them, the page being the pageable's slice of them |
| ExamplePrescriptionService.PrescriptionService.ExistsPrescription | src/main/java/com/example/patients/service/PrescriptionService.java:168-170 | true exactly when `getPrescriptionById` finds it |
| FiuniBaseService.AbstractBaseService.constructor | src/main/java/com/fiuni/patients/service/AbstractBaseService.java:24 | the service keeps its repository, mapper and soft-delete operations |
| FiuniBaseService.AbstractBaseService.GetAll | src/main/java/com/fiuni/patients/service/AbstractBaseService.java:29-32 | a page of mapped active rows counting all of them, keeping the pageable: the mapping of the pageable's slice of the active rows, ascending id, or largest id first under `id DESC` |
| FiuniBaseService.AbstractBaseService.GetById | src/main/java/com/fiuni/patients/service/AbstractBaseService.java:34-37 | present exactly for an active row, mapped |
| FiuniBaseService.AbstractBaseService.Create | src/main/java/com/fiuni/patients/service/AbstractBaseService.java:39-44 | the mapped request is saved and the saved row mapped back |
| FiuniBaseService.AbstractBaseService.Update | src/main/java/com/fiuni/patients/service/AbstractBaseService.java:46-56 | empty exactly without an active row, with nothing changed; otherwise the merge is written back in place and mapped |
| FiuniBaseService.AbstractBaseService.Delete | src/main/java/com/fiuni/patients/service/AbstractBaseService.java:58-108 | false with nothing changed without an active row; otherwise true, and the row is saved back as the reflective clearing leaves it |
| FiuniBaseService.MappedQuery | src/main/java/com/fiuni/patients/service/AbstractBaseService.java:110-112 | the mapped rows of a query without ORDER BY hold each kept row's mapping, entry `i` being the mapping of the row with the `i`-th smallest kept id |
| FiuniBaseService.AbstractBaseService.GetAllAsList | src/main/java/com/fiuni/patients/service/AbstractBaseService.java:109-113 | one mapped element per active row, every one of them present, and entry `i` the mapping of the active row with the `i`-th smallest id |
| FiuniMedicationMapper.ToEntity | src/main/java/com/fiuni/patients/mapper/MedicationMapper.java:22-43 | null exactly for a null request; otherwise the request's fields, active, with no id, version or dates |
| FiuniMedicationMapper.ToDto | src/main/java/com/fiuni/patients/mapper/MedicationMapper.java:46-85 | null exactly for a null entity; otherwise every field carried over and the number of prescriptions filled in |
| FiuniMedicationMapper.CreatedMedicationReadsBack | src/main/java/com/fiuni/patients/mapper/MedicationMapper.java:22-85 | a request mapped to an entity and back reads back all its fields and comes out active |
| FiuniMedicationMapper.ToResponseList | src/main/java/com/fiuni/patients/mapper/MedicationMapper.java:99-108 | null for a null list; otherwise one response per entity, in order |
| FiuniMedicationMapper.ResponseListHolds | src/main/java/com/fiuni/patients/mapper/MedicationMapper.java:99-108 | the mapped list holds the response of every medication in the list |
| FiuniMedicationMapper.UpdateEntity | src/main/java/com/fiuni/patients/mapper/MedicationMapper.java:111-142 | a null entity or request leaves the entity as it is; otherwise the merge |
| FiuniMedicationMapper.MergeKeepsAudit | src/main/java/com/fiuni/patients/mapper/MedicationMapper.java:111-142 | a merge never changes id, active flag, version or dates, and an all-null request changes nothing |
| FiuniMedicationMapper.FullRequestReplaces | src/main/java/com/fiuni/patients/mapper/MedicationMapper.java:119-139 | a request with every field set replaces all of them |
| FiuniMedicationRepository.FindAllActive | src/main/java/com/fiuni/patients/repository/MedicationRepository.java:23-24 | a page of active medications counting all of them: the pageable's slice of the active rows, ascending id, or largest id first under `id DESC` |
| FiuniMedicationRepository.FindByIdAndActiveTrue | src/main/java/com/fiuni/patients/repository/MedicationRepository.java:29-30 | present exactly for an active medication with that id |
| FiuniMedicationRepository.SearchMedications | src/main/java/com/fiuni/patients/repository/MedicationRepository.java:35-42 | exactly the medications matching the term, each once |
| FiuniMedicationRepository.SearchMedicationsKeeps | src/main/java/com/fiuni/patients/repository/MedicationRepository.java:35-42 | a null or empty term matches every active medication; otherwise an active one matches when one of its five text columns is LIKE the term |
| FiuniMedicationRepository.SearchMedicationsByCriteria | src/main/java/com/fiuni/patients/repository/MedicationRepository.java:47-56 | exactly the medications meeting every given criterion, each once |
| FiuniMedicationRepository.CriteriaIds | src/main/java/com/fiuni/patients/repository/MedicationRepository.java:47-56 | the ids of exactly the rows meeting the criteria |
| FiuniMedicationRepository.MoreCriteriaNarrow | src/main/java/com/fiuni/patients/repository/MedicationRepository.java:47-56 | adding criteria never adds results |
| FiuniMedicationRepository.NoCriteriaIsAllActive | src/main/java/com/fiuni/patients/repository/MedicationRepository.java:47-56 | with every criterion null or empty a medication matches exactly when it is active, and the search is the list of all active medications |
| FiuniMedicationRepository.CountActiveMedications | src/main/java/com/fiuni/patients/repository/MedicationRepository.java:61-62 | the number of active medications, equal to the length of the unfiltered search |
| FiuniMedicationRepository.SearchByTerm | src/main/java/com/fiuni/patients/repository/MedicationRepository.java:67-68 | the same page as listing all active medications: the term is not read |
| FiuniMedicationService.DeleteThenGetIsEmpty | src/main/java/com/fiuni/patients/service/MedicationService.java:103-119 | after a delete the medication is not found, and a second delete changes nothing |
| FiuniMedicationService.MedicationService.constructor | src/main/java/com/fiuni/patients/service/MedicationService.java:21-27 | the service keeps its repository |
| FiuniMedicationService.MedicationService.GetAllMedications | src/main/java/com/fiuni/patients/service/MedicationService.java:33-41 | the repository's page, mapped element by element, counting all active medications |
| FiuniMedicationService.MedicationService.GetMedicationById | src/main/java/com/fiuni/patients/service/MedicationService.java:47-59 | present exactly for an active medication, mapped |
| FiuniMedicationService.MedicationService.CreateMedication | src/main/java/com/fiuni/patients/service/MedicationService.java:64-73 | the new active medication is stored under the next id and nothing else changes |
| FiuniMedicationService.MedicationService.UpdateMedication | src/main/java/com/fiuni/patients/service/MedicationService.java:79-97 | empty exactly without an active medication, with nothing changed; otherwise only that row changes, to the merge |
| FiuniMedicationService.MedicationService.DeleteMedication | src/main/java/com/fiuni/patients/service/MedicationService.java:103-119 | the soft delete of an active medication, reporting whether there was one |
| FiuniMedicationService.MedicationService.SearchMedications | src/main/java/com/fiuni/patients/service/MedicationService.java:125-133 | the repository search, mapped element by element |
| FiuniMedicationService.MedicationService.SearchMedicationsByCriteria | src/main/java/com/fiuni/patients/service/MedicationService.java:139-150 | the repository criteria search, mapped element by element |
| FiuniMedicationService.MedicationService.CountActiveMedications | src/main/java/com/fiuni/patients/service/MedicationService.java:156-159 | the total of the listing and the length of the unfiltered search |
| FiuniPatientMapper.MapBloodTypeDomainToDto | src/main/java/com/fiuni/patients/mapper/PatientMapper.java:28-35 | null stays null; otherwise the DTO constant of the same name |
| FiuniPatientMapper.MapBloodTypeDtoToDomain | src/main/java/com/fiuni/patients/mapper/PatientMapper.java:40-47 | null stays null; otherwise the domain constant of the same name |
| FiuniPatientMapper.BloodTypeRoundTrip | src/main/java/com/fiuni/patients/mapper/PatientMapper.java:28-47 | converting a blood type either way and back gives it back |
| FiuniPatientMapper.GenderValueOf | src/main/java/com/fiuni/patients/mapper/PatientMapper.java:73 | a gender name converts exactly when the target enum has it, and otherwise throws |
| FiuniPatientMapper.GenderOrUnset | src/main/java/com/fiuni/patients/mapper/PatientMapper.java:122-129 | a gender the target enum has is kept; anything else becomes the fallback |
| FiuniPatientMapper.ToEntity | src/main/java/com/fiuni/patients/mapper/PatientMapper.java:50-86 | null for a null request; fails exactly for a gender the domain enum lacks; otherwise the request's fields, document type `CI`, active, created and updated now |
| FiuniPatientMapper.ToDto | src/main/java/com/fiuni/patients/mapper/PatientMapper.java:89-136 | null exactly for a null entity; otherwise every field carried over, with the full name and age from the domain rules |
| FiuniPatientMapper.FullName | src/main/java/com/fiuni/patients/mapper/PatientMapper.java:117-118 | the domain's full name when it gives one; otherwise the first and last names joined by a space |
| FiuniPatientMapper.CreatedPatientReadsBack | src/main/java/com/fiuni/patients/mapper/PatientMapper.java:50-136 | a request mapped to an entity and back reads back its fields and comes out active |
| FiuniPatientMapper.ToResponseList | src/main/java/com/fiuni/patients/mapper/PatientMapper.java:213-222 | null for a null list; otherwise one response per entity, in order |
| FiuniPatientMapper.ResponseListHolds | src/main/java/com/fiuni/patients/mapper/PatientMapper.java:213-222 | the mapped list holds the response of every patient in the list |
| FiuniPatientMapper.UpdateEntity | src/main/java/com/fiuni/patients/mapper/PatientMapper.java:139-176 | a null entity or request leaves the entity as it is; otherwise the null-skipping merge |
| FiuniPatientMapper.MergeKeepsIdentity | src/main/java/com/fiuni/patients/mapper/PatientMapper.java:139-176 | a merge keeps id, document type, active flag and creation date, sets updated to now, and takes each request field only where it is not null |
| FiuniPatientMapper.MergeIdempotent | src/main/java/com/fiuni/patients/mapper/PatientMapper.java:139-176 | merging the same request twice is merging it once |
| FiuniPatientMapper.PickText | src/main/java/com/fiuni/patients/mapper/PatientMapper.java:237-267 | a non-blank given text replaces the current one; a null or blank one keeps it |
| FiuniPatientMapper.UpdateEntityFromRequest | src/main/java/com/fiuni/patients/mapper/PatientMapper.java:229-286 | a null entity or request leaves the entity as it is; otherwise the merge that skips null and blank texts |
| FiuniPatientMapper.NonBlankMergeExample | src/main/java/com/fiuni/patients/mapper/PatientMapper.java:237-243 | a non-blank last name is taken, a blank one and a null first name are not |
| FiuniPatientMapper.BlankRequestOnlyTouches | src/main/java/com/fiuni/patients/mapper/PatientMapper.java:229-286 | a request of only blank or null fields changes nothing but the update time |
| FiuniPatientRepository.FindAllActive | src/main/java/com/fiuni/patients/repository/PatientRepository.java:23-24 | a page of active patients counting all of them: the pageable's slice of the active rows, ascending id, or largest id first under `id DESC` |
| FiuniPatientRepository.FindByIdAndActiveTrue | src/main/java/com/fiuni/patients/repository/PatientRepository.java:29-30 | present exactly for an active patient with that id |
| FiuniPatientRepository.SearchPatients | src/main/java/com/fiuni/patients/repository/PatientRepository.java:35-36 | every active patient exactly once |
| FiuniPatientRepository.CountActivePatients | src/main/java/com/fiuni/patients/repository/PatientRepository.java:41-42 | the number of active patients |
| FiuniPatientRepository.SearchByTerm | src/main/java/com/fiuni/patients/repository/PatientRepository.java:47-48 | the same page as listing all active patients |
| FiuniPatientRepository.SearchIgnoresTerm | src/main/java/com/fiuni/patients/repository/PatientRepository.java:35-48 | both searches give the same answer whatever the term |
| FiuniPatientService.DeleteThenGetIsEmpty | src/main/java/com/fiuni/patients/service/PatientService.java:97-113 | after a delete the patient is not found, and a second delete changes nothing |
| FiuniPatientService.PatientService.constructor | src/main/java/com/fiuni/patients/service/PatientService.java:18-24 | the service keeps its repository, domain rules and gender enums |
| FiuniPatientService.PatientService.GetAllPatients | src/main/java/com/fiuni/patients/service/PatientService.java:30-38 | the repository's page, mapped element by element, counting all active patients |
| FiuniPatientService.PatientService.GetPatientById | src/main/java/com/fiuni/patients/service/PatientService.java:44-56 | present exactly for an active patient, mapped |
| FiuniPatientService.PatientService.CreatePatient | src/main/java/com/fiuni/patients/service/PatientService.java:61-70 | fails exactly for a gender the domain enum lacks, with nothing stored; otherwise the new active patient under the next id |
| FiuniPatientService.PatientService.UpdatePatient | src/main/java/com/fiuni/patients/service/PatientService.java:75-92 | empty exactly without an active patient, with nothing changed; otherwise only that row changes, to the merge that skips blank texts |
| FiuniPatientService.PatientService.DeletePatient | src/main/java/com/fiuni/patients/service/PatientService.java:97-113 | the soft delete of an active patient, reporting whether there was one |
| FiuniPatientService.PatientService.SearchPatients | src/main/java/com/fiuni/patients/service/PatientService.java:119-124 | every active patient, mapped, whatever the search arguments |
| FiuniPatientService.PatientService.CountActivePatients | src/main/java/com/fiuni/patients/service/PatientService.java:130-133 | the total of the listing and the length of the search |
| FiuniPrescriptionMapper.ToEntity | src/main/java/com/fiuni/patients/mapper/PrescriptionMapper.java:21-61 | null exactly for a null request; otherwise the request's fields, active, with no patient or medications |
| FiuniPrescriptionMapper.ActiveLinks | src/main/java/com/fiuni/patients/mapper/PrescriptionMapper.java:126-168 | exactly the active rows, in order |
| FiuniPrescriptionMapper.ActiveLinksAppend | src/main/java/com/fiuni/patients/mapper/PrescriptionMapper.java:126-168 | filtering two lists put together is filtering each |
| FiuniPrescriptionMapper.ActiveLinksOfAllActive | src/main/java/com/fiuni/patients/mapper/PrescriptionMapper.java:126-168 | a list of active rows filters to itself |
| FiuniPrescriptionMapper.ReferencedPatient | src/main/java/com/fiuni/patients/mapper/PrescriptionMapper.java:96-123 | the stored patient the reference names, or the bare reference |
| FiuniPrescriptionMapper.PatientSummary | src/main/java/com/fiuni/patients/mapper/PrescriptionMapper.java:96-123 | fails exactly for a gender the DTO enum lacks; otherwise the patient's identifying fields |
| FiuniPrescriptionMapper.LinkToDto | src/main/java/com/fiuni/patients/mapper/PrescriptionMapper.java:126-168 | the row's details, with the medication summary exactly when the medication is stored |
| FiuniPrescriptionMapper.Dto | src/main/java/com/fiuni/patients/mapper/PrescriptionMapper.java:64-171 | fails exactly when the patient summary fails; otherwise every field, the patient summary and one entry per active row |
| FiuniPrescriptionMapper.ToDto | src/main/java/com/fiuni/patients/mapper/PrescriptionMapper.java:64-171 | null for a null entity; otherwise the mapping above |
| FiuniPrescriptionMapper.ToResponseList | src/main/java/com/fiuni/patients/mapper/PrescriptionMapper.java:185-194 | null for a null list; fails when some mapping fails; otherwise one response per entity, in order |
| FiuniPrescriptionMapper.UpdateEntity | src/main/java/com/fiuni/patients/mapper/PrescriptionMapper.java:197-231 | a null entity or request leaves the entity as it is; otherwise the merge |
| FiuniPrescriptionMapper.MergeKeepsIdentity | src/main/java/com/fiuni/patients/mapper/PrescriptionMapper.java:197-231 | a merge keeps id, active flag, version, creation date, patient and medications, sets last modified to now, and an all-null request changes nothing else |
| FiuniPrescriptionMapper.MergeAfterCreate | src/main/java/com/fiuni/patients/mapper/PrescriptionMapper.java:197-231 | merging the creating request again changes only the modification time |
| FiuniPrescriptionRepository.FindAllActive | src/main/java/com/fiuni/patients/repository/PrescriptionRepository.java:23-24 | a page of active prescriptions counting all of them: the pageable's slice of the active rows, ascending id, or largest id first under `id DESC` |
| FiuniPrescriptionRepository.FindByIdAndActiveTrue | src/main/java/com/fiuni/patients/repository/PrescriptionRepository.java:29-30 | present exactly for an active prescription with that id |
| FiuniPrescriptionRepository.FindByPatientId | src/main/java/com/fiuni/patients/repository/PrescriptionRepository.java:35-36 | every active prescription, whoever the patient |
| FiuniPrescriptionRepository.FindByPatientIdAndActiveTrue | src/main/java/com/fiuni/patients/repository/PrescriptionRepository.java:41-42 | the same page as listing all active prescriptions |
| FiuniPrescriptionRepository.CountActivePrescriptions | src/main/java/com/fiuni/patients/repository/PrescriptionRepository.java:47-48 | the number of active prescriptions |
| FiuniPrescriptionRepository.CountByPatientId | src/main/java/com/fiuni/patients/repository/PrescriptionRepository.java:53-54 | the number of all active prescriptions, whoever the patient |
| FiuniPrescriptionRepository.SearchByTerm | src/main/java/com/fiuni/patients/repository/PrescriptionRepository.java:59-60 | the same page as listing all active prescriptions |
| FiuniPrescriptionRepository.OtherPatientsRowsAreListed | src/main/java/com/fiuni/patients/repository/PrescriptionRepository.java:35-36 | another patient's active prescription is listed and counted for this one |
| FiuniPrescriptionService.FirstActiveLink | src/main/java/com/fiuni/patients/service/PrescriptionService.java:557-559 | the first active row for the medication, or none when there is none |
| FiuniPrescriptionService.FirstLinkFor | src/main/java/com/fiuni/patients/service/PrescriptionService.java:495-499 | the first row for the medication, active or not, or none when there is none |
| FiuniPrescriptionService.NewLink | src/main/java/com/fiuni/patients/service/PrescriptionService.java:462-484 | the new row: the given id and medication, the request's details, active, created and modified now |
| FiuniPrescriptionService.Added | src/main/java/com/fiuni/patients/service/PrescriptionService.java:487-490 | the row goes at the end of the collection and nothing else changes |
| FiuniPrescriptionService.RemovedAt | src/main/java/com/fiuni/patients/service/PrescriptionService.java:567-568 | only the chosen row changes: inactive, modified now |
| FiuniPrescriptionService.DetailsUpdatedAt | src/main/java/com/fiuni/patients/service/PrescriptionService.java:653-669 | only the chosen row changes: the request's non-null details, modified now |
| FiuniPrescriptionService.LinkSummary | src/main/java/com/fiuni/patients/service/PrescriptionService.java:501-515 | the row's details, with the medication summary exactly when the medication is stored |
| FiuniPrescriptionService.Created | src/main/java/com/fiuni/patients/service/PrescriptionService.java:336-340 | the new prescription: the next id, active, pointing at the patient, with the request's fields and no medications |
| FiuniPrescriptionService.AddedRowIsFirst | src/main/java/com/fiuni/patients/service/PrescriptionService.java:492-499 | after an add, the lookup that builds the response finds the new row |
| FiuniPrescriptionService.RemoveKeepsLinks | src/main/java/com/fiuni/patients/service/PrescriptionService.java:451-458 | a removed row still counts as present, so that medication cannot be added again |
| FiuniPrescriptionService.AddKeepsUnique | src/main/java/com/fiuni/patients/service/PrescriptionService.java:451-490 | adding a medication with no row keeps one row per medication |
| FiuniPrescriptionService.SecondRemoveFindsNothing | src/main/java/com/fiuni/patients/service/PrescriptionService.java:557-568 | once the active row is removed, a second remove finds nothing |
| FiuniPrescriptionService.AddExtendsList | src/main/java/com/fiuni/patients/service/PrescriptionService.java:487-490 | an add puts the new row at the end of the listed medications |
| FiuniPrescriptionService.RemoveShrinksList | src/main/java/com/fiuni/patients/service/PrescriptionService.java:567-568 | a remove takes one entry off the listed medications |
| FiuniPrescriptionService.PrescriptionService.constructor | src/main/java/com/fiuni/patients/service/PrescriptionService.java:35-40 | the service keeps its three repositories and gender enums; it needs only that each stored prescription has at most one row per medication, the invariant the service keeps |
| FiuniPrescriptionService.PrescriptionService.GetAllPrescriptions | src/main/java/com/fiuni/patients/service/PrescriptionService.java:46-56 | the repository's page mapped element by element, the first failing mapping aborting, counting all active prescriptions |
| FiuniPrescriptionService.PrescriptionService.GetAllPrescriptionsFiltered | src/main/java/com/fiuni/patients/service/PrescriptionService.java:283-298 | a bad page or size fails with an illegal argument; otherwise, whatever the patient and filled filters, exactly the listing of all active prescriptions under `Sort.by(DESC, "id")` |
| FiuniPrescriptionService.PrescriptionService.FilteredNewestFirst | src/main/java/com/fiuni/patients/service/PrescriptionService.java:287-297 | the filtered listing is newest first: entry `i` of the page is the mapping of the active prescription with the `(page * size + i)`-th largest id, and the page holds every one left there, up to the size |
| FiuniPrescriptionService.PrescriptionService.NewestFirst | src/main/java/com/fiuni/patients/service/PrescriptionService.java:46-56 | listed under `id DESC`, entry `i` of the page is the mapping of the active prescription with the `i`-th largest id from the page's start |
| FiuniPrescriptionService.PrescriptionService.GetPrescriptionById | src/main/java/com/fiuni/patients/service/PrescriptionService.java:304-316 | empty without an active prescription; otherwise its mapping |
| FiuniPrescriptionService.PrescriptionService.CreatePrescription | src/main/java/com/fiuni/patients/service/PrescriptionService.java:322-347 | fails without a patient id or without an active patient, with nothing stored; otherwise the new prescription under the next id, rolled back if its mapping fails |
| FiuniPrescriptionService.PrescriptionService.UpdatePrescription | src/main/java/com/fiuni/patients/service/PrescriptionService.java:353-370 | empty without an active prescription; otherwise only that row changes, to the merge, rolled back if its mapping fails |
| FiuniPrescriptionService.PrescriptionService.DeletePrescription | src/main/java/com/fiuni/patients/service/PrescriptionService.java:376-392 | the soft delete of an active prescription, reporting whether there was one |
| FiuniPrescriptionService.PrescriptionService.GetPrescriptionsByPatient | src/main/java/com/fiuni/patients/service/PrescriptionService.java:398-408 | at most the first 1000 active prescriptions, mapped, whoever the patient |
| FiuniPrescriptionService.PrescriptionService.AddMedicationToPrescriptionByIds | src/main/java/com/fiuni/patients/service/PrescriptionService.java:432-520 | fails for a missing prescription or medication or one already linked, with nothing changed; otherwise one new active row appended and summarised |
| FiuniPrescriptionService.PrescriptionService.RemoveMedicationFromPrescriptionByIds | src/main/java/com/fiuni/patients/service/PrescriptionService.java:540-574 | fails exactly without an active prescription; true exactly when an active row for the medication existed, and then only that first row is deactivated |
| FiuniPrescriptionService.PrescriptionService.GetPrescriptionMedicationsList | src/main/java/com/fiuni/patients/service/PrescriptionService.java:580-621 | fails exactly without an active prescription; otherwise one summary per active row, in order |
| FiuniPrescriptionService.PrescriptionService.UpdatePrescriptionMedicationByIds | src/main/java/com/fiuni/patients/service/PrescriptionService.java:627-694 | fails without an active prescription or with a null collection; empty without an active row for the medication; otherwise only the first such row is updated and summarised |
| JavaText.TrimEmptyIffBlank | src/main/java/com/fiuni/patients/mapper/PatientMapper.java:237-265 | `trim()` is empty exactly for a blank text |
| JavaText.HasTextIff | src/main/java/com/example/patients/util/PaginationUtil.java:67 | `hasText`, which `Sort.Order` demands of its property, holds exactly when some character is not Java whitespace |
| JavaText.JavaSplitComma | src/main/java/com/example/patients/util/PaginationUtil.java:51-52 | `split(",")` gives the comma parts without the trailing empty ones, and one empty part for the empty text |
| JavaText.SplitEmptyIffOnlyCommas | src/main/java/com/example/patients/util/PaginationUtil.java:51-52 | `split(",")` is empty exactly for a non-empty text of commas only |
| Paging.PageRequestOf | src/main/java/com/fiuni/patients/service/PrescriptionService.java:287 | `PageRequest.of` succeeds exactly for a page of at least 0 and a size of at least 1, and keeps its arguments |
| Jpa.Table.Save | src/main/java/com/fiuni/patients/service/AbstractBaseService.java:42 | `save` inserts a row without a stored id under the next id and overwrites the row its id names otherwise, and the saved row is what is stored |
| Jpa.InsertKeepsOthers | src/main/java/com/example/patients/service/base/AbstractBaseService.java:37 | inserting a new row adds exactly one id and leaves every other row as it was |
| Jpa.Ordered | src/main/java/com/fiuni/patients/service/PrescriptionService.java:287 | the kept rows, each once and nothing else, ascending id, or largest id first under `id DESC` |
| Jpa.PagedQuery | src/main/java/com/fiuni/patients/service/AbstractBaseService.java:30-31 | a paged repository query: the total counts every kept row, and the page is the pageable's slice of the kept rows, ascending id, or largest id first under `id DESC` |
| Jpa.PagedIdDescending | src/main/java/com/fiuni/patients/service/PrescriptionService.java:287-297 | under `Sort.by(DESC, "id")` entry `i` of the page is the row with the `(page * size + i)`-th largest kept id, and the page holds every row left from there up to its size |
| Jpa.PagedQueryIdDescendingEntries | src/main/java/com/example/patients/repository/MedicationRepository.java:58-63 | a query ordered `id DESC` in its JPQL: entry `i` of the page is the row with the `(page * size + i)`-th largest kept id, and the page holds every row left from there up to its size |
| Jpa.FirstPageHoldsAll | src/main/java/com/fiuni/patients/service/PrescriptionService.java:398-408 | a first page at least as large as the result holds every kept row |
| Jpa.SoftDelete | src/main/java/com/fiuni/patients/service/AbstractBaseService.java:58-108 | an active row is deactivated in place; without one nothing changes |
| Jpa.SoftDeleteTwice | src/main/java/com/fiuni/patients/service/AbstractBaseService.java:58-108 | a soft delete keeps every id, leaves the row inactive and other rows untouched, and a second one changes nothing |

## Left out

- Controllers, OpenAPI configuration, the application entry points and the HTTP layer are not part of this model. Logging is left out.
- The fiuni `PrescriptionService.addMedicationToPrescription` (`src/main/java/com/fiuni/patients/service/PrescriptionService.java:416-426`) and `getPrescriptionMedication` (`src/main/java/com/fiuni/patients/service/PrescriptionService.java:526-534`) are left out. They are placeholders that return a fixed response with id 1 and read nothing.
- The commented-out block of the fiuni `PrescriptionService` (lines 59-275) is not code and is not modelled.
- A null argument where the model takes a plain value is not modelled. Examples are the entity or DTO passed to the example `PrescriptionService.createPrescription` (`src/main/java/com/example/patients/service/PrescriptionService.java:49-51`) and `updatePrescription` (`:72-74`), the example `PatientService.createPatient` (`src/main/java/com/example/patients/service/PatientService.java:63`), and the request of the fiuni `PrescriptionService.createPrescription` (`src/main/java/com/fiuni/patients/service/PrescriptionService.java:322-323`). The code would throw `NullPointerException` there. These arguments come from required request bodies, so callers never pass null.
- The example `PatientMapper` is left out. It delegates entirely to ModelMapper and Jackson, whose reflection cannot be stated here.
- The JSON helpers of the example `MedicationMapper` are left out. ModelMapper itself is modelled as a copy of the fields the request and the entity share by name, honouring the skip-null setting.
- The fiuni mappers' `updateEntityFromRequest` for medications and prescriptions only delegates to `updateEntity`, so they are not separate members. The same holds for `PatientMapper.toResponse`, `toResponseWithPrescriptionIds` and `MedicationMapper.toResponse`, which delegate to `toDto`.
- Value semantics: entities are immutable values stored in maps. Two Java references to one managed entity are therefore not modelled. Neither are dirty checking, or an in-place change becoming visible before `save`.
- Inverse collections (`patient.getPrescriptions()`, `medication.getPrescriptions()`) are derived from the prescription table rather than stored.
- Transactions are reduced to one effect: a rollback (`Jpa.Table.Restore`) when a mapping throws after a `save`. Optimistic locking (`version`), cascades, flush order and concurrency are left out.
- JPQL `LIKE` follows `%term%` with the term's own `%` and `_` taken literally, and `LOWER`/`UPPER` fold ASCII letters only. Locale rules and Unicode case folding are not modelled.
- Of a `Pageable`'s sort, only `id DESC` is applied. A query without `ORDER BY` returns rows in ascending id order, standing in for the database's unspecified order.
- Timestamps are opaque integers given as `now`. Time zones and clock readings are not modelled.
- The domain library's validation, age and full-name rules and its gender vocabularies are parameters, because that library's code is not part of this model.
- An unset `Boolean active` on an entity reads as `false`.
- A prescription-medication row always names a medication here. The fiuni `PrescriptionService` checks `getMedication() != null` in some places (`src/main/java/com/fiuni/patients/service/PrescriptionService.java:607`, `:683`) and the fiuni `PrescriptionMapper` does too (`src/main/java/com/fiuni/patients/mapper/PrescriptionMapper.java:144`). Elsewhere it dereferences the medication without a check (`PrescriptionService.java:453`, `:497`, `:558`, `:641`), where a row without one would throw a `NullPointerException`; those paths are not modelled.
- The fiuni medication entity has one active flag, `active`. The fiuni `MedicationMapper` reads and writes it as `isActive` (`src/main/java/com/fiuni/patients/mapper/MedicationMapper.java:40`, `:57`), the JPQL reads `m.active` (`src/main/java/com/fiuni/patients/repository/MedicationRepository.java:23`) and the service calls `setActive(false)` (`src/main/java/com/fiuni/patients/service/MedicationService.java:110`). The model takes these to be one field.
- FiuniBaseService.AbstractBaseService.Delete: the reflective search for `setActive` or `setIsActive` is the `deactivate` parameter. It is not required to clear the flag, so an entity whose setter the reflection misses stays active, as it does in the source. Which setter the reflection finds is not modelled.
- FiuniPrescriptionService.PrescriptionService.constructor: requires that each stored prescription has at most one row per medication, the invariant the service's add and update rely on. The source does not check this, but it only ever adds rows for medications not yet present.
- ExamplePatientService.PatientService.constructor: takes the prescription table too, because `patient.getPrescriptions()` is derived from it.

## Findings

| source | as written | input that shows it | evidently intended | confidence | as-written member | corrected member |
|---|---|---|---|---|---|---|
| src/main/java/com/example/patients/repository/PrescriptionRepository.java:49-50 | `JOIN p.medications m WHERE m.id = :medicationId`: `m` is the prescription-medication row, so its own id is compared with the medication id | prescription 1 active, with one row whose id is 7 for medication 3: searching medication 3 finds nothing, searching 7 finds prescription 1 | compare `m.medication.id` with the argument | not executed | ExamplePrescriptionRepository.FindByMedicationIdAndActiveTrueAsWritten (shown by ExamplePrescriptionRepository.JoinRowIdIsNotMedicationId) | ExamplePrescriptionRepository.FindByMedicationIdAndActiveTrue |
