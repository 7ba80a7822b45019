/** The Author aggregate and its value objects. */
module AuthorDomain {
  import opened Results
  import opened Text

  const MaxNameLength := 500
  const NameEmpty := "Name cannot be empty"
  const NameTooLong := "Name cannot exceed 500 characters"
  const BirthDateInFuture := "birthDate cannot be in the future"

  /** A calendar date as a day number: later dates are larger numbers. */
  type Day = int

  datatype AuthorId = AuthorId(id: int)

  predicate ValidName(name: string) {
    IsNotBlank(name) && |name| <= MaxNameLength
  }

  /** An inline value class: a plain string that exists only once its init block accepted it. */
  type AuthorName = name: string | ValidName(name) witness "A"

  /** The `AuthorName` constructor: the blank check runs before the length check. */
  function NewAuthorName(name: string): (r: Result<AuthorName>)
    ensures r.Ok? <==> ValidName(name)
    ensures r.Ok? ==> r.value == name
    ensures !IsNotBlank(name) ==> r == Err(NameEmpty)
    ensures IsNotBlank(name) && |name| > MaxNameLength ==> r == Err(NameTooLong)
  {
    if !IsNotBlank(name) then Err(NameEmpty)
    else if |name| > MaxNameLength then Err(NameTooLong)
    else Ok(name)
  }

  /** A birth date together with the day (`LocalDate.now()`) its init block compared it with. */
  datatype BirthDateValue = BirthDateValue(birthDate: Day, ghost checkedOn: Day)

  /** An inline value class whose check reads the clock: a birth date exists only once it was
      found to lie strictly before the day it was checked on. */
  type AuthorBirthDate = b: BirthDateValue | b.birthDate < b.checkedOn witness BirthDateValue(0, 1)

  /** The `AuthorBirthDate` constructor, with `LocalDate.now()` passed in as `today`:
      only dates strictly before today are accepted. */
  function NewAuthorBirthDate(birthDate: Day, today: Day): (r: Result<AuthorBirthDate>)
    ensures r.Ok? <==> birthDate < today
    ensures r.Ok? ==> r.value.birthDate == birthDate && r.value.checkedOn == today
    ensures r.Err? ==> r.error == BirthDateInFuture
  {
    if birthDate < today then Ok(BirthDateValue(birthDate, today)) else Err(BirthDateInFuture)
  }

  /** An author; `id` is `None` until the author is first saved, and never changes. */
  class Author {
    const id: Option<AuthorId>
    var name: AuthorName
    var birthDate: AuthorBirthDate

    constructor (id: Option<AuthorId>, name: AuthorName, birthDate: AuthorBirthDate)
      ensures this.id == id && this.name == name && this.birthDate == birthDate
    {
      this.id := id;
      this.name := name;
      this.birthDate := birthDate;
    }

    method Rename(newName: AuthorName)
      modifies this
      ensures name == newName
      ensures birthDate == old(birthDate)
    {
      name := newName;
    }

    method UpdateBirthDate(newBirthDate: AuthorBirthDate)
      modifies this
      ensures birthDate == newBirthDate
      ensures name == old(name)
    {
      birthDate := newBirthDate;
    }
  }
}
