/** `com.example.patients.service.base.AbstractPersonService`: the base
    service for person entities, whose `save` and `update` first validate the
    mapped entity. The person's validity flag, email and age come from the
    domain library, which this model does not see; the email check is the
    service's own regular expression. */
module ExamplePersonService {
  import opened Wrappers
  import opened Failures
  import Base = ExampleBaseService

  // ------------------------------------------------------------ the email

  /** A character of the class `[A-Za-z0-9+_.-]`. */
  predicate LocalChar(c: char) {
    || ('A' <= c <= 'Z') || ('a' <= c <= 'z') || ('0' <= c <= '9')
    || c == '+' || c == '_' || c == '.' || c == '-'
  }

  /** A line terminator, which the regular-expression `.` does not match. */
  predicate LineTerminator(c: char) {
    c == '\n' || c == '\r' || c == '\U{0085}' || c == '\U{2028}' || c == '\U{2029}'
  }

  /** What `email.matches("^[A-Za-z0-9+_.-]+@(.+)$")` accepts: a non-empty
      run of local characters, an '@', and at least one more character, with
      no line terminator after the '@'. */
  ghost predicate MatchesEmailPattern(e: string) {
    exists i :: 0 < i < |e| - 1 && e[i] == '@'
      && (forall j :: 0 <= j < i ==> LocalChar(e[j]))
      && (forall j :: i < j < |e| ==> !LineTerminator(e[j]))
  }

  /** The length of the longest run of local characters `s` starts with. */
  function LocalPrefix(s: string): (n: nat)
    ensures n <= |s|
    ensures forall j :: 0 <= j < n ==> LocalChar(s[j])
    ensures n < |s| ==> !LocalChar(s[n])
  {
    if s == [] || !LocalChar(s[0]) then 0
    else
      var n := 1 + LocalPrefix(s[1..]);
      assert forall j :: 1 <= j < n ==> s[j] == s[1..][j - 1];
      n
  }

  predicate NoLineTerminator(s: string) {
    forall j :: 0 <= j < |s| ==> !LineTerminator(s[j])
  }

  /** `isValidEmail(email)`: the '@' must end the longest run of local
      characters, since '@' is not one of them. */
  function IsValidEmail(email: Option<string>): (r: bool)
  {
    match email
    case None => false
    case Some(e) =>
      var n := LocalPrefix(e);
      0 < n < |e| - 1 && e[n] == '@' && NoLineTerminator(e[n + 1..])
  }

  /** The check accepts exactly the addresses the pattern matches, and
      rejects null. */
  lemma {:induction false} IsValidEmailMatchesPattern(email: Option<string>)
    ensures IsValidEmail(email) <==> email.Some? && MatchesEmailPattern(email.value)
  {
    if email.Some? {
      var e := email.value;
      var n := LocalPrefix(e);
      if IsValidEmail(email) {
        assert forall j :: n < j < |e| ==> e[j] == e[n + 1..][j - n - 1];
        assert 0 < n < |e| - 1 && e[n] == '@' && (forall j :: 0 <= j < n ==> LocalChar(e[j]));
      }
      if MatchesEmailPattern(e) {
        var i :| 0 < i < |e| - 1 && e[i] == '@'
          && (forall j :: 0 <= j < i ==> LocalChar(e[j]))
          && (forall j :: i < j < |e| ==> !LineTerminator(e[j]));
        assert !LocalChar(e[i]);
        assert n == i;
        var rest := e[n + 1..];
        assert forall j :: 0 <= j < |rest| ==> rest[j] == e[n + 1 + j];
      }
    }
  }

  /** "a@b" passes; "@b" (no local part), "a@" (nothing after the '@') and
      "a b@c" (a blank in the local part) do not. */
  lemma EmailExamples()
    ensures IsValidEmail(Some("a@b"))
    ensures !IsValidEmail(Some("@b")) && !IsValidEmail(Some("a@")) && !IsValidEmail(Some("a b@c"))
  {
    assert LocalPrefix("a@b") == 1;
    assert LocalPrefix("@b") == 0;
    assert LocalPrefix("a b@c") == 1;
  }

  // ------------------------------------------------------------- the rules

  /** What a `PersonDomain` answers: `isValid()`, `getEmail()` and
      `getAge()` (null when the library cannot give an age). */
  datatype PersonView<!E> = PersonView(isValid: E -> bool, email: E -> Option<string>, age: E -> Option<int>)

  /** The person passes every check of `validatePersonData`. */
  predicate Acceptable<E>(view: PersonView<E>, person: E) {
    && view.isValid(person)
    && (view.email(person).None? || IsValidEmail(view.email(person)))
    && view.age(person).Some? && 0 <= view.age(person).value <= 150
  }

  /** `validatePersonData(person)`: None when the person passes, otherwise
      the exception of the first check that fails. */
  function ValidatePersonData<E>(view: PersonView<E>, person: E): (r: Option<Failure>)
    ensures r.None? <==> Acceptable(view, person)
    ensures !view.isValid(person) ==> r == Some(InvalidPersonData)
    ensures view.isValid(person) && view.email(person).Some? && !IsValidEmail(view.email(person)) ==>
              r == Some(InvalidEmailFormat(view.email(person).value))
    ensures r.Some? && r.value.InvalidAge? ==> r.value.age < 0 || r.value.age > 150
  {
    if !view.isValid(person) then Some(InvalidPersonData)
    else if view.email(person).Some? && !IsValidEmail(view.email(person)) then Some(InvalidEmailFormat(view.email(person).value))
    else if view.age(person).None? then Some(NullPointer)
    else if view.age(person).value < 0 || view.age(person).value > 150 then Some(InvalidAge(view.age(person).value))
    else None
  }

  /** A null email passes, a valid person with an age out of 0..150 fails
      for that age. */
  lemma {:induction false} NullEmailAndAgeBounds<E>(view: PersonView<E>, person: E)
    requires view.isValid(person) && view.age(person).Some?
    ensures view.email(person).None? ==>
              (ValidatePersonData(view, person).None? <==> 0 <= view.age(person).value <= 150)
    ensures (view.email(person).None? || IsValidEmail(view.email(person))) && !(0 <= view.age(person).value <= 150) ==>
              ValidatePersonData(view, person) == Some(InvalidAge(view.age(person).value))
  {
  }

  // ----------------------------------------------------------- the service

  class AbstractPersonService<E(!new), D(!new)> {
    const base: Base.AbstractBaseService<E, D>
    const view: PersonView<E>

    ghost predicate Valid()
      reads this, base, base.repository
    {
      base.Valid()
    }

    constructor (base: Base.AbstractBaseService<E, D>, view: PersonView<E>)
      requires base.Valid()
      ensures Valid()
      ensures this.base == base && this.view == view
    {
      this.base := base;
      this.view := view;
    }

    /** `save(dto)`: the mapped person is validated, then saved as the base
        service saves it; a person that fails is not saved. */
    method Save(dto: D) returns (r: Result<D, Failure>)
      requires Valid()
      modifies base.repository
      ensures Valid()
      ensures var v := ValidatePersonData(view, base.mapper.toEntity(dto));
              && (v.Some? ==> r == Fail(v.value) && base.repository.rows == old(base.repository.rows)
                              && base.repository.nextId == old(base.repository.nextId))
              && (v.None? ==> var (saved, rows, next) := base.repository.Saved(old(base.repository.rows), old(base.repository.nextId), base.mapper.toEntity(dto));
                              && base.repository.rows == rows && base.repository.nextId == next
                              && r == Ok(base.mapper.toDto(saved)))
    {
      var entity := base.mapper.toEntity(dto);
      var invalid := ValidatePersonData(view, entity);
      if invalid.Some? {
        return Fail(invalid.value);
      }
      var saved := base.Save(dto);
      return Ok(saved);
    }

    /** `update(id, dto)`: the mapped person is validated before the row is
        even looked up, then updated as the base service updates it. */
    method Update(id: int, dto: D) returns (r: Result<D, Failure>)
      requires Valid()
      modifies base.repository
      ensures Valid()
      ensures var v := ValidatePersonData(view, base.mapper.toEntity(dto));
              && (v.Some? ==> r == Fail(v.value))
              && (v.Some? || id !in old(base.repository.rows) ==>
                    base.repository.rows == old(base.repository.rows) && base.repository.nextId == old(base.repository.nextId))
              && (v.None? && id !in old(base.repository.rows) ==> r == Fail(NotFound(AnyEntity, id)))
              && (v.None? && id in old(base.repository.rows) ==>
                    var (saved, rows, next) := base.repository.Saved(old(base.repository.rows), old(base.repository.nextId), base.mapper.toEntity(dto));
                    && base.repository.rows == rows && base.repository.nextId == next
                    && r == Ok(base.mapper.toDto(saved)))
    {
      var entity := base.mapper.toEntity(dto);
      var invalid := ValidatePersonData(view, entity);
      if invalid.Some? {
        return Fail(invalid.value);
      }
      r := base.Update(id, dto);
    }
  }
}
