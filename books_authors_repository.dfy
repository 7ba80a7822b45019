/** The books_authors join table: link rows, the two lookups, and deletion of one link. */
module BooksAuthorsRepository {
  import opened Store

  /** Inserts the row (bookId, authorId) and returns it. */
  method CreateBookAuthor(db: Database, bookId: int, authorId: int) returns (r: BooksAuthorsRecord)
    requires db.Valid()
    modifies db
    ensures db.Valid()
    ensures r == BooksAuthorsRecord(bookId, authorId)
    ensures db.booksAuthors == old(db.booksAuthors) + [r]
    ensures db.authors == old(db.authors) && db.books == old(db.books)
    ensures db.nextAuthorId == old(db.nextAuthorId) && db.nextBookId == old(db.nextBookId)
  {
    r := BooksAuthorsRecord(bookId, authorId);
    db.booksAuthors := db.booksAuthors + [r];
  }

  /** The author ids of the rows for `bookId`, in table order. */
  function FindAuthorsByBookId(rows: seq<BooksAuthorsRecord>, bookId: int): (r: seq<int>)
    ensures |r| <= |rows|
    ensures forall a :: a in r <==> BooksAuthorsRecord(bookId, a) in rows
  {
    if rows == [] then []
    else (if rows[0].bookId == bookId then [rows[0].authorId] else [])
         + FindAuthorsByBookId(rows[1..], bookId)
  }

  /** The book ids of the rows for `authorId`, in table order. */
  function FindBooksByAuthorId(rows: seq<BooksAuthorsRecord>, authorId: int): (r: seq<int>)
    ensures |r| <= |rows|
    ensures forall b :: b in r <==> BooksAuthorsRecord(b, authorId) in rows
  {
    if rows == [] then []
    else (if rows[0].authorId == authorId then [rows[0].bookId] else [])
         + FindBooksByAuthorId(rows[1..], authorId)
  }

  /** The table once every row equal to (bookId, authorId) is deleted. */
  function DeleteBookAuthorRows(rows: seq<BooksAuthorsRecord>, bookId: int, authorId: int): (r: seq<BooksAuthorsRecord>)
    ensures forall row :: multiset(r)[row] == if row == BooksAuthorsRecord(bookId, authorId) then 0 else multiset(rows)[row]
  {
    if rows == [] then []
    else
      assert rows == [rows[0]] + rows[1..];
      (if rows[0] == BooksAuthorsRecord(bookId, authorId) then [] else [rows[0]])
      + DeleteBookAuthorRows(rows[1..], bookId, authorId)
  }

  method DeleteBookAuthor(db: Database, bookId: int, authorId: int)
    requires db.Valid()
    modifies db
    ensures db.Valid()
    ensures db.booksAuthors == DeleteBookAuthorRows(old(db.booksAuthors), bookId, authorId)
    ensures db.authors == old(db.authors) && db.books == old(db.books)
    ensures db.nextAuthorId == old(db.nextAuthorId) && db.nextBookId == old(db.nextBookId)
  {
    db.booksAuthors := DeleteBookAuthorRows(db.booksAuthors, bookId, authorId);
  }

  lemma {:induction false} FindAuthorsByBookIdAppend(rows: seq<BooksAuthorsRecord>, more: seq<BooksAuthorsRecord>, bookId: int)
    ensures FindAuthorsByBookId(rows + more, bookId) == FindAuthorsByBookId(rows, bookId) + FindAuthorsByBookId(more, bookId)
  {
    if rows != [] {
      assert (rows + more)[1..] == rows[1..] + more;
      FindAuthorsByBookIdAppend(rows[1..], more, bookId);
    } else {
      assert rows + more == more;
    }
  }

  lemma {:induction false} FindBooksByAuthorIdAppend(rows: seq<BooksAuthorsRecord>, more: seq<BooksAuthorsRecord>, authorId: int)
    ensures FindBooksByAuthorId(rows + more, authorId) == FindBooksByAuthorId(rows, authorId) + FindBooksByAuthorId(more, authorId)
  {
    if rows != [] {
      assert (rows + more)[1..] == rows[1..] + more;
      FindBooksByAuthorIdAppend(rows[1..], more, authorId);
    } else {
      assert rows + more == more;
    }
  }

  /** After createBookAuthor(b, a), each lookup lists the new partner last, after the old ones. */
  lemma CreateBookAuthorThenFind(rows: seq<BooksAuthorsRecord>, bookId: int, authorId: int)
    ensures FindAuthorsByBookId(rows + [BooksAuthorsRecord(bookId, authorId)], bookId)
            == FindAuthorsByBookId(rows, bookId) + [authorId]
    ensures FindBooksByAuthorId(rows + [BooksAuthorsRecord(bookId, authorId)], authorId)
            == FindBooksByAuthorId(rows, authorId) + [bookId]
  {
    var link := [BooksAuthorsRecord(bookId, authorId)];
    FindAuthorsByBookIdAppend(rows, link, bookId);
    FindBooksByAuthorIdAppend(rows, link, authorId);
  }

  /** deleteBookAuthor(b, a) unlinks a from b and leaves every other book's author list as it was. */
  lemma {:induction false} DeleteBookAuthorThenFind(rows: seq<BooksAuthorsRecord>, bookId: int, authorId: int, other: int)
    ensures authorId !in FindAuthorsByBookId(DeleteBookAuthorRows(rows, bookId, authorId), bookId)
    ensures other != bookId ==>
      FindAuthorsByBookId(DeleteBookAuthorRows(rows, bookId, authorId), other) == FindAuthorsByBookId(rows, other)
  {
    var r := DeleteBookAuthorRows(rows, bookId, authorId);
    assert multiset(r)[BooksAuthorsRecord(bookId, authorId)] == 0;
    if other != bookId && rows != [] {
      var head := if rows[0] == BooksAuthorsRecord(bookId, authorId) then [] else [rows[0]];
      var rest := DeleteBookAuthorRows(rows[1..], bookId, authorId);
      assert r == head + rest;
      DeleteBookAuthorThenFind(rows[1..], bookId, authorId, other);
      FindAuthorsByBookIdAppend(head, rest, other);
    }
  }
}
