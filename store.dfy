/** The relational store as in-memory tables: authors and books keyed by id, the
    books_authors join table as a sequence of rows, and one id sequence per keyed table. */
module Store {

  datatype AuthorRow = AuthorRow(name: string, birthDate: int)

  datatype BookRow = BookRow(title: string, price: int, status: string)

  /** A row of the books table together with its id, as jOOQ returns it. */
  datatype BooksRecord = BooksRecord(id: int, title: string, price: int, status: string)

  datatype BooksAuthorsRecord = BooksAuthorsRecord(bookId: int, authorId: int)

  function RecordOf(id: int, row: BookRow): BooksRecord {
    BooksRecord(id, row.title, row.price, row.status)
  }

  class Database {
    var authors: map<int, AuthorRow>
    var books: map<int, BookRow>
    var booksAuthors: seq<BooksAuthorsRecord>
    var nextAuthorId: int
    var nextBookId: int

    /** Every id in use lies below its sequence, so the next value is always unused. */
    ghost predicate Valid()
      reads this
    {
      && (forall id | id in authors :: id < nextAuthorId)
      && (forall id | id in books :: id < nextBookId)
    }

    constructor ()
      ensures Valid()
      ensures authors == map[] && books == map[] && booksAuthors == []
    {
      authors := map[];
      books := map[];
      booksAuthors := [];
      nextAuthorId := 1;
      nextBookId := 1;
    }
  }
}
