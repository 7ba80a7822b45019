/** The authors table: lookup by id, which rebuilds and so re-validates the value objects,
    and save, which inserts when the author has no id and updates otherwise. */
module AuthorRepository {
  import opened Results
  import opened AuthorDomain
  import opened Store

  /** What `findById` makes of the table, as data: `Ok(None)` for a missing id, the row when
      it passes the value-object checks, and otherwise the message of the first check it fails. */
  function Lookup(authors: map<int, AuthorRow>, id: int, today: Day): (r: Result<Option<AuthorRow>>)
    ensures r == Ok(None) <==> id !in authors
    ensures r.Ok? && r.value.Some? ==> id in authors && r.value.value == authors[id]
    ensures r.Err? <==> id in authors && !(ValidName(authors[id].name) && authors[id].birthDate < today)
    ensures r.Err? && !ValidName(authors[id].name) ==> r.error == NewAuthorName(authors[id].name).error
    ensures r.Err? && ValidName(authors[id].name) ==> r.error == BirthDateInFuture
  {
    if id !in authors then Ok(None)
    else
      var row := authors[id];
      var _ :- NewAuthorName(row.name);
      var _ :- NewAuthorBirthDate(row.birthDate, today);
      Ok(Some(row))
  }

  method FindById(db: Database, id: int, today: Day) returns (r: Result<Author?>)
    ensures r.Err? <==> Lookup(db.authors, id, today).Err?
    ensures r.Err? ==> r.error == Lookup(db.authors, id, today).error
    ensures r.Ok? ==> (r.value == null <==> id !in db.authors)
    ensures r.Ok? && r.value != null ==>
      && fresh(r.value)
      && r.value.id == Some(AuthorId(id))
      && r.value.name == db.authors[id].name
      && r.value.birthDate.birthDate == db.authors[id].birthDate
  {
    if id !in db.authors {
      return Ok(null);
    }
    var record := db.authors[id];
    var authorName :- NewAuthorName(record.name);
    var authorBirthDate :- NewAuthorBirthDate(record.birthDate, today);
    var author := new Author(Some(AuthorId(id)), authorName, authorBirthDate);
    return Ok(author);
  }

  function RowOf(name: AuthorName, birthDate: AuthorBirthDate): AuthorRow {
    AuthorRow(name, birthDate.birthDate)
  }

  /** Without an id: inserts a row under an unused id, then rebuilds the author from the
      returned row, which re-runs the birth-date check against `today` (the insert stays).
      With an id: overwrites that row if there is one (otherwise nothing changes) and
      returns the very author it was given. */
  method Save(db: Database, author: Author, today: Day) returns (r: Result<Author>)
    requires db.Valid()
    modifies db
    ensures db.Valid()
    ensures db.books == old(db.books) && db.booksAuthors == old(db.booksAuthors)
    ensures db.nextBookId == old(db.nextBookId) && db.nextAuthorId >= old(db.nextAuthorId)
    ensures author.id.None? ==> (r.Ok? <==> author.birthDate.birthDate < today)
    ensures author.id.None? && r.Ok? ==>
      && fresh(r.value)
      && r.value.id.Some?
      && r.value.id.value.id !in old(db.authors)
      && db.authors == old(db.authors)[r.value.id.value.id := RowOf(author.name, author.birthDate)]
      && r.value.name == author.name
      && r.value.birthDate.birthDate == author.birthDate.birthDate
    ensures author.id.None? && r.Err? ==>
      && r.error == BirthDateInFuture
      && exists id | id !in old(db.authors) :: db.authors == old(db.authors)[id := RowOf(author.name, author.birthDate)]
    ensures author.id.Some? ==> r == Ok(author)
    ensures author.id.Some? ==>
      db.authors == if author.id.value.id in old(db.authors)
                    then old(db.authors)[author.id.value.id := RowOf(author.name, author.birthDate)]
                    else old(db.authors)
  {
    if author.id.None? {
      var id := db.nextAuthorId;
      db.nextAuthorId := id + 1;
      var record := RowOf(author.name, author.birthDate);
      db.authors := db.authors[id := record];
      assert id !in old(db.authors);
      // the stored name came from an AuthorName, so rebuilding it cannot fail
      var authorName := NewAuthorName(record.name);
      assert authorName.Ok?;
      var authorBirthDate :- NewAuthorBirthDate(record.birthDate, today);
      var saved := new Author(Some(AuthorId(id)), authorName.value, authorBirthDate);
      return Ok(saved);
    } else {
      var id := author.id.value.id;
      if id in db.authors {
        db.authors := db.authors[id := RowOf(author.name, author.birthDate)];
      }
      return Ok(author);
    }
  }
}
