/** Book use cases: create a book and link its existing authors; update by delegation. */
module BookService {
  import opened Results
  import opened AuthorDomain
  import opened Store
  import AuthorRepository
  import BooksAuthorsRepository
  import BookRepository

  /** The elements of `authorIds` that have a row in the authors table, in order. */
  function ExistingAuthorIds(authorIds: seq<int>, authors: map<int, AuthorRow>): (r: seq<int>)
    ensures |r| <= |authorIds|
  {
    if authorIds == [] then []
    else
      var init, last := authorIds[..|authorIds| - 1], authorIds[|authorIds| - 1];
      assert authorIds == init + [last];
      ExistingAuthorIds(init, authors) + (if last in authors then [last] else [])
  }

  /** Each existing id is kept as often as it is listed, and every other id is dropped. */
  lemma {:induction false} ExistingAuthorIdsCount(authorIds: seq<int>, authors: map<int, AuthorRow>)
    ensures forall a :: multiset(ExistingAuthorIds(authorIds, authors))[a]
                        == if a in authors then multiset(authorIds)[a] else 0
  {
    if authorIds != [] {
      var init, last := authorIds[..|authorIds| - 1], authorIds[|authorIds| - 1];
      assert authorIds == init + [last];
      ExistingAuthorIdsCount(init, authors);
    }
  }

  /** What the loop of `createBook` makes of `authorIds`: the ids it links, or the message of
      the first lookup that throws (a stored author row that no longer validates). */
  function LinkedAuthorIds(authors: map<int, AuthorRow>, authorIds: seq<int>, today: Day): (r: Result<seq<int>>)
    ensures r.Ok? ==> r.value == ExistingAuthorIds(authorIds, authors)
  {
    if authorIds == [] then Ok([])
    else
      var init, last := authorIds[..|authorIds| - 1], authorIds[|authorIds| - 1];
      match LinkedAuthorIds(authors, init, today)
      case Err(e) => Err(e)
      case Ok(linked) =>
        match AuthorRepository.Lookup(authors, last, today)
        case Err(e) => Err(e)
        case Ok(found) => Ok(if found.Some? then linked + [last] else linked)
  }

  /** The loop completes exactly when no lookup of the listed ids throws. */
  lemma {:induction false} LinkedAuthorIdsSucceeds(authors: map<int, AuthorRow>, authorIds: seq<int>, today: Day)
    ensures LinkedAuthorIds(authors, authorIds, today).Ok?
            <==> forall j | 0 <= j < |authorIds| :: AuthorRepository.Lookup(authors, authorIds[j], today).Ok?
  {
    if authorIds != [] {
      var init := authorIds[..|authorIds| - 1];
      assert forall j | 0 <= j < |init| :: init[j] == authorIds[j];
      LinkedAuthorIdsSucceeds(authors, init, today);
    }
  }

  /** Fail-fast: the error is the one of the first id whose lookup throws. */
  lemma {:induction false} LinkedAuthorIdsError(authors: map<int, AuthorRow>, authorIds: seq<int>, today: Day)
    requires LinkedAuthorIds(authors, authorIds, today).Err?
    ensures exists i | 0 <= i < |authorIds| ::
      && AuthorRepository.Lookup(authors, authorIds[i], today) == Err(LinkedAuthorIds(authors, authorIds, today).error)
      && forall j | 0 <= j < i :: AuthorRepository.Lookup(authors, authorIds[j], today).Ok?
  {
    var n := |authorIds|;
    var init := authorIds[..n - 1];
    assert forall j | 0 <= j < |init| :: init[j] == authorIds[j];
    LinkedAuthorIdsSucceeds(authors, init, today);
    if LinkedAuthorIds(authors, init, today).Err? {
      LinkedAuthorIdsError(authors, init, today);
      var i :| 0 <= i < |init|
        && AuthorRepository.Lookup(authors, init[i], today) == Err(LinkedAuthorIds(authors, init, today).error)
        && forall j | 0 <= j < i :: AuthorRepository.Lookup(authors, init[j], today).Ok?;
      assert AuthorRepository.Lookup(authors, authorIds[i], today) == Err(LinkedAuthorIds(authors, authorIds, today).error);
    } else {
      var i := n - 1;
      assert AuthorRepository.Lookup(authors, authorIds[i], today) == Err(LinkedAuthorIds(authors, authorIds, today).error);
    }
  }

  /** Once a prefix of the ids makes the loop throw, the whole list throws the same error. */
  lemma {:induction false} LinkedAuthorIdsFailFast(authors: map<int, AuthorRow>, authorIds: seq<int>, k: nat, today: Day)
    requires k <= |authorIds|
    requires LinkedAuthorIds(authors, authorIds[..k], today).Err?
    ensures LinkedAuthorIds(authors, authorIds, today) == LinkedAuthorIds(authors, authorIds[..k], today)
    decreases |authorIds| - k
  {
    if k < |authorIds| {
      var next := authorIds[..k + 1];
      assert next[..k] == authorIds[..k];
      assert LinkedAuthorIds(authors, next, today) == LinkedAuthorIds(authors, authorIds[..k], today);
      LinkedAuthorIdsFailFast(authors, authorIds, k + 1, today);
    } else {
      assert authorIds[..k] == authorIds;
    }
  }

  /** Inserts the book row (title, price and status are not validated), then links the
      existing authors. A lookup that throws aborts the call, and the transaction restores
      both tables. */
  method CreateBook(db: Database, title: string, price: int, status: string, authorIds: seq<int>, today: Day)
    returns (r: Result<BooksRecord>)
    requires db.Valid()
    modifies db
    ensures db.Valid()
    ensures db.authors == old(db.authors)
    ensures r.Ok? <==> LinkedAuthorIds(old(db.authors), authorIds, today).Ok?
    ensures r.Err? ==>
      && r.error == LinkedAuthorIds(old(db.authors), authorIds, today).error
      && db.books == old(db.books) && db.booksAuthors == old(db.booksAuthors)
    ensures r.Ok? ==>
      && r.value.id !in old(db.books)
      && r.value == BooksRecord(r.value.id, title, price, status)
      && db.books == old(db.books)[r.value.id := BookRow(title, price, status)]
      && db.booksAuthors == old(db.booksAuthors)
                           + BookRepository.LinksOf(r.value.id, ExistingAuthorIds(authorIds, old(db.authors)))
  {
    var savedBooks, savedLinks := db.books, db.booksAuthors;
    var book := BookRepository.Save(db, title, price, status);
    var linked := LinkExistingAuthors(db, book.id, authorIds, today);
    if linked.Err? {
      db.books, db.booksAuthors := savedBooks, savedLinks;
      return Err(linked.error);
    }
    return Ok(book);
  }

  /** The `forEach` of `createBook`: walks `authorIds` in order and appends a link row for
      each id whose author is found; a missing author is skipped silently. Stops at the
      first lookup that throws. */
  method LinkExistingAuthors(db: Database, bookId: int, authorIds: seq<int>, today: Day) returns (r: Result<()>)
    requires db.Valid()
    modifies db
    ensures db.Valid()
    ensures db.authors == old(db.authors) && db.books == old(db.books)
    ensures db.nextBookId == old(db.nextBookId)
    ensures r.Err? ==> LinkedAuthorIds(db.authors, authorIds, today) == Err(r.error)
    ensures r.Err? ==> exists k, linked | 0 <= k < |authorIds| ::
      && LinkedAuthorIds(db.authors, authorIds[..k], today) == Ok(linked)
      && AuthorRepository.Lookup(db.authors, authorIds[k], today).Err?
      && db.booksAuthors == old(db.booksAuthors) + BookRepository.LinksOf(bookId, linked)
    ensures r.Ok? ==> exists linked ::
      && LinkedAuthorIds(db.authors, authorIds, today) == Ok(linked)
      && db.booksAuthors == old(db.booksAuthors) + BookRepository.LinksOf(bookId, linked)
  {
    ghost var authors := db.authors;
    ghost var linked: seq<int> := [];
    var i := 0;
    assert authorIds[..0] == [];
    while i < |authorIds|
      invariant 0 <= i <= |authorIds|
      invariant db.Valid()
      invariant db.authors == authors && db.books == old(db.books) && db.nextBookId == old(db.nextBookId)
      invariant LinkedAuthorIds(authors, authorIds[..i], today) == Ok(linked)
      invariant db.booksAuthors == old(db.booksAuthors) + BookRepository.LinksOf(bookId, linked)
    {
      var author := AuthorRepository.FindById(db, authorIds[i], today);
      if author.Err? {
        LinkStepError(authors, authorIds, i, today);
        return Err(author.error);
      }
      LinkStep(authors, authorIds, i, linked, today);
      if author.value != null {
        var link := BooksAuthorsRepository.CreateBookAuthor(db, bookId, authorIds[i]);
        BookRepository.LinksOfAppend(bookId, linked, authorIds[i]);
        linked := linked + [authorIds[i]];
      }
      i := i + 1;
    }
    assert authorIds[..i] == authorIds;
    return Ok(());
  }

  lemma LinkStep(authors: map<int, AuthorRow>, authorIds: seq<int>, i: nat, linked: seq<int>, today: Day)
    requires i < |authorIds|
    requires LinkedAuthorIds(authors, authorIds[..i], today) == Ok(linked)
    requires AuthorRepository.Lookup(authors, authorIds[i], today).Ok?
    ensures LinkedAuthorIds(authors, authorIds[..i + 1], today)
            == Ok(if authorIds[i] in authors then linked + [authorIds[i]] else linked)
  {
    assert authorIds[..i + 1][..i] == authorIds[..i];
  }

  lemma LinkStepError(authors: map<int, AuthorRow>, authorIds: seq<int>, i: nat, today: Day)
    requires i < |authorIds|
    requires LinkedAuthorIds(authors, authorIds[..i], today).Ok?
    requires AuthorRepository.Lookup(authors, authorIds[i], today).Err?
    ensures LinkedAuthorIds(authors, authorIds, today) == Err(AuthorRepository.Lookup(authors, authorIds[i], today).error)
  {
    assert authorIds[..i + 1][..i] == authorIds[..i];
    LinkedAuthorIdsFailFast(authors, authorIds, i + 1, today);
  }

  /** Delegates to `update`: no author-existence check and no validation. */
  method UpdateBook(db: Database, id: int, title: string, price: int, status: string, authorIds: seq<int>)
    returns (updated: bool)
    requires db.Valid()
    modifies db
    ensures db.Valid()
    ensures updated <==> id in old(db.books)
    ensures db.books == if updated then old(db.books)[id := BookRow(title, price, status)] else old(db.books)
    ensures db.booksAuthors == if updated then BookRepository.Relink(old(db.booksAuthors), id, authorIds)
                               else old(db.booksAuthors)
    ensures db.authors == old(db.authors)
  {
    updated := BookRepository.Update(db, id, title, price, status, authorIds);
  }

  /** After a successful createBook, the new book's author list gains exactly the existing
      ids of `authorIds`, in order, and every other book's author list is unchanged. */
  lemma CreateBookLinksExistingAuthors(rows: seq<BooksAuthorsRecord>, bookId: int, authorIds: seq<int>,
                                       authors: map<int, AuthorRow>, other: int)
    ensures var after := rows + BookRepository.LinksOf(bookId, ExistingAuthorIds(authorIds, authors));
      && BooksAuthorsRepository.FindAuthorsByBookId(after, bookId)
         == BooksAuthorsRepository.FindAuthorsByBookId(rows, bookId) + ExistingAuthorIds(authorIds, authors)
      && (other != bookId ==>
          BooksAuthorsRepository.FindAuthorsByBookId(after, other) == BooksAuthorsRepository.FindAuthorsByBookId(rows, other))
  {
    var links := BookRepository.LinksOf(bookId, ExistingAuthorIds(authorIds, authors));
    BooksAuthorsRepository.FindAuthorsByBookIdAppend(rows, links, bookId);
    BooksAuthorsRepository.FindAuthorsByBookIdAppend(rows, links, other);
    BookRepository.FindAuthorsOfLinks(bookId, ExistingAuthorIds(authorIds, authors), bookId);
    BookRepository.FindAuthorsOfLinks(bookId, ExistingAuthorIds(authorIds, authors), other);
  }
}
