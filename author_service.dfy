/** Author use cases: create, partial update, and the books of an author. */
module AuthorService {
  import opened Results
  import opened AuthorDomain
  import opened Store
  import opened Responses
  import AuthorRepository

  /** One response per book the lookup finds, in the lookup's order. The lookup
      (`findBooksByAuthorId`) is a parameter: an unknown author simply yields no books. */
  function GetBooksWrittenByAuthor(findBooksByAuthorId: int -> seq<BooksRecord>, authorId: int): (r: seq<BookResponse>)
    ensures |r| == |findBooksByAuthorId(authorId)|
    ensures forall i | 0 <= i < |r| :: r[i] == BookResponseOf(findBooksByAuthorId(authorId)[i])
  {
    BookResponses(findBooksByAuthorId(authorId))
  }

  function BookResponses(books: seq<BooksRecord>): (r: seq<BookResponse>)
    ensures |r| == |books|
    ensures forall i | 0 <= i < |r| :: r[i] == BookResponseOf(books[i])
  {
    if books == [] then [] else [BookResponseOf(books[0])] + BookResponses(books[1..])
  }

  /** Validates name then birth date, and only then saves a new author under an unused id. */
  method CreateAuthor(db: Database, name: string, birthDate: Day, today: Day) returns (r: Result<AuthorResponse>)
    requires db.Valid()
    modifies db
    ensures db.Valid()
    ensures db.books == old(db.books) && db.booksAuthors == old(db.booksAuthors)
    ensures r.Ok? <==> ValidName(name) && birthDate < today
    ensures !ValidName(name) ==> r == Err(NewAuthorName(name).error)
    ensures ValidName(name) && !(birthDate < today) ==> r == Err(BirthDateInFuture)
    ensures r.Err? ==> db.authors == old(db.authors)
    ensures r.Ok? ==>
      && r.value.id !in old(db.authors)
      && db.authors == old(db.authors)[r.value.id := AuthorRow(name, birthDate)]
      && r.value == AuthorResponse(r.value.id, name, birthDate)
  {
    var authorName :- NewAuthorName(name);
    var authorBirthDate :- NewAuthorBirthDate(birthDate, today);
    var author := new Author(None, authorName, authorBirthDate);
    var created := AuthorRepository.Save(db, author, today);
    // the birth date was checked against the same day, so the insert branch succeeds
    assert created.Ok?;
    return Ok(AuthorResponseOf(created.value));
  }

  /** The row `updateAuthor` writes: each supplied field is validated (name first) and
      replaces the stored one; an omitted field keeps the stored value. */
  function ApplyUpdate(row: AuthorRow, name: Option<string>, birthDate: Option<Day>, today: Day): (r: Result<AuthorRow>)
    ensures r.Ok? <==> (name.Some? ==> ValidName(name.value)) && (birthDate.Some? ==> birthDate.value < today)
    ensures name.Some? && !ValidName(name.value) ==> r == Err(NewAuthorName(name.value).error)
    ensures r.Err? && (name.None? || ValidName(name.value)) ==> r.error == BirthDateInFuture
    ensures r.Ok? ==> r.value.name == (if name.Some? then name.value else row.name)
    ensures r.Ok? ==> r.value.birthDate == (if birthDate.Some? then birthDate.value else row.birthDate)
  {
    var newName :- if name.Some? then NewAuthorName(name.value) else Ok(row.name);
    var newBirthDate :- if birthDate.None? then Ok(row.birthDate)
                        else match NewAuthorBirthDate(birthDate.value, today)
                             case Ok(b) => Ok(b.birthDate)
                             case Err(e) => Err(e);
    Ok(AuthorRow(newName, newBirthDate))
  }

  /** Loads the author, applies the supplied fields, and saves once. A missing id gives
      `Ok(None)`; any failure (a stored row that no longer validates, an invalid new field)
      happens before the save, so the table is left as it was. */
  method UpdateAuthor(db: Database, id: int, name: Option<string>, birthDate: Option<Day>, today: Day)
    returns (r: Result<Option<AuthorResponse>>)
    requires db.Valid()
    modifies db
    ensures db.Valid()
    ensures db.books == old(db.books) && db.booksAuthors == old(db.booksAuthors)
    ensures r == Ok(None) <==> id !in old(db.authors)
    ensures r.Err? || r == Ok(None) ==> db.authors == old(db.authors)
    ensures var found := AuthorRepository.Lookup(old(db.authors), id, today);
      found.Err? ==> r == Err(found.error)
    ensures var found := AuthorRepository.Lookup(old(db.authors), id, today);
      found.Ok? && found.value.Some? ==>
        var change := ApplyUpdate(found.value.value, name, birthDate, today);
        && (change.Err? ==> r == Err(change.error))
        && (change.Ok? ==> r == Ok(Some(AuthorResponse(id, change.value.name, change.value.birthDate)))
                           && db.authors == old(db.authors)[id := change.value])
  {
    var found :- AuthorRepository.FindById(db, id, today);
    if found == null {
      return Ok(None);
    }
    if name.Some? {
      var newName :- NewAuthorName(name.value);
      found.Rename(newName);
    }
    if birthDate.Some? {
      var newBirthDate :- NewAuthorBirthDate(birthDate.value, today);
      found.UpdateBirthDate(newBirthDate);
    }
    var updated := AuthorRepository.Save(db, found, today);
    return Ok(Some(AuthorResponseOf(updated.value)));
  }

  /** Round trip with `findById`: the row `createAuthor` inserts reads back as that author. */
  lemma CreatedAuthorReadsBack(authors: map<int, AuthorRow>, id: int, name: string, birthDate: Day, today: Day)
    requires ValidName(name) && birthDate < today
    ensures AuthorRepository.Lookup(authors[id := AuthorRow(name, birthDate)], id, today)
            == Ok(Some(AuthorRow(name, birthDate)))
  {
  }

  /** Round trip with `findById`: after a successful update, looking the author up again
      returns exactly the row that was written. */
  lemma UpdatedAuthorReadsBack(authors: map<int, AuthorRow>, id: int, name: Option<string>, birthDate: Option<Day>, today: Day)
    requires AuthorRepository.Lookup(authors, id, today).Ok?
    requires AuthorRepository.Lookup(authors, id, today).value.Some?
    requires ApplyUpdate(authors[id], name, birthDate, today).Ok?
    ensures var row := ApplyUpdate(authors[id], name, birthDate, today).value;
      AuthorRepository.Lookup(authors[id := row], id, today) == Ok(Some(row))
  {
  }
}
