/** The books table: lookup by a list of ids, insert, and update that rewrites the book's
    author links by delete-all-then-reinsert. */
module BookRepository {
  import opened Store
  import opened BooksAuthorsRepository

  /** The rows whose id is one of `bookIds`. The query has no ORDER BY, so the result is a set. */
  function FindBooksByIds(books: map<int, BookRow>, bookIds: seq<int>): (r: set<BooksRecord>)
    ensures forall rec | rec in r :: rec.id in bookIds && rec.id in books && rec == RecordOf(rec.id, books[rec.id])
    ensures forall id | id in bookIds && id in books :: RecordOf(id, books[id]) in r
    ensures forall x, y | x in r && y in r && x.id == y.id :: x == y
  {
    set id | id in bookIds && id in books :: RecordOf(id, books[id])
  }

  /** Inserts a row under an unused id and returns it; nothing is validated. */
  method Save(db: Database, title: string, price: int, status: string) returns (r: BooksRecord)
    requires db.Valid()
    modifies db
    ensures db.Valid()
    ensures r.id !in old(db.books)
    ensures r == BooksRecord(r.id, title, price, status)
    ensures db.books == old(db.books)[r.id := BookRow(title, price, status)]
    ensures db.authors == old(db.authors) && db.booksAuthors == old(db.booksAuthors)
    ensures db.nextAuthorId == old(db.nextAuthorId) && db.nextBookId >= old(db.nextBookId)
  {
    var id := db.nextBookId;
    db.nextBookId := id + 1;
    db.books := db.books[id := BookRow(title, price, status)];
    r := BooksRecord(id, title, price, status);
  }

  /** The rows left after deleting every link of `bookId`. */
  function DeleteLinksOfBook(rows: seq<BooksAuthorsRecord>, bookId: int): (r: seq<BooksAuthorsRecord>)
    ensures forall row :: multiset(r)[row] == if row.bookId == bookId then 0 else multiset(rows)[row]
  {
    if rows == [] then []
    else
      assert rows == [rows[0]] + rows[1..];
      (if rows[0].bookId == bookId then [] else [rows[0]]) + DeleteLinksOfBook(rows[1..], bookId)
  }

  /** One link row (bookId, a) per element a of `authorIds`, in order. */
  function LinksOf(bookId: int, authorIds: seq<int>): (r: seq<BooksAuthorsRecord>)
    ensures |r| == |authorIds|
  {
    if authorIds == [] then []
    else LinksOf(bookId, authorIds[..|authorIds| - 1]) + [BooksAuthorsRecord(bookId, authorIds[|authorIds| - 1])]
  }

  /** The k-th link row pairs the book with the k-th author id. */
  lemma {:induction false} LinksOfContents(bookId: int, authorIds: seq<int>)
    ensures forall k | 0 <= k < |authorIds| :: LinksOf(bookId, authorIds)[k] == BooksAuthorsRecord(bookId, authorIds[k])
  {
    if authorIds != [] {
      var init := authorIds[..|authorIds| - 1];
      LinksOfContents(bookId, init);
    }
  }

  lemma LinksOfAppend(bookId: int, authorIds: seq<int>, authorId: int)
    ensures LinksOf(bookId, authorIds + [authorId]) == LinksOf(bookId, authorIds) + [BooksAuthorsRecord(bookId, authorId)]
  {
    assert (authorIds + [authorId])[..|authorIds|] == authorIds;
  }

  /** The join table after `update` rewrote the links of `bookId`. */
  function Relink(rows: seq<BooksAuthorsRecord>, bookId: int, authorIds: seq<int>): seq<BooksAuthorsRecord> {
    DeleteLinksOfBook(rows, bookId) + LinksOf(bookId, authorIds)
  }

  /** Updates the book row when it exists, and then replaces its links; reports whether a row was updated. */
  method Update(db: Database, id: int, title: string, price: int, status: string, authorIds: seq<int>)
    returns (updated: bool)
    requires db.Valid()
    modifies db
    ensures db.Valid()
    ensures updated <==> id in old(db.books)
    ensures db.books == if updated then old(db.books)[id := BookRow(title, price, status)] else old(db.books)
    ensures db.booksAuthors == if updated then Relink(old(db.booksAuthors), id, authorIds) else old(db.booksAuthors)
    ensures db.authors == old(db.authors)
    ensures db.nextAuthorId == old(db.nextAuthorId) && db.nextBookId == old(db.nextBookId)
  {
    var updateCount := if id in db.books then 1 else 0;
    if updateCount > 0 {
      db.books := db.books[id := BookRow(title, price, status)];
      db.booksAuthors := DeleteLinksOfBook(db.booksAuthors, id);
      ghost var kept := db.booksAuthors;
      var i := 0;
      while i < |authorIds|
        invariant 0 <= i <= |authorIds|
        invariant db.Valid()
        invariant db.books == old(db.books)[id := BookRow(title, price, status)]
        invariant db.booksAuthors == kept + LinksOf(id, authorIds[..i])
        invariant db.authors == old(db.authors)
        invariant db.nextAuthorId == old(db.nextAuthorId) && db.nextBookId == old(db.nextBookId)
      {
        assert authorIds[..i + 1][..i] == authorIds[..i];
        assert LinksOf(id, authorIds[..i + 1]) == LinksOf(id, authorIds[..i]) + [BooksAuthorsRecord(id, authorIds[i])];
        db.booksAuthors := db.booksAuthors + [BooksAuthorsRecord(id, authorIds[i])];
        i := i + 1;
      }
      assert authorIds[..i] == authorIds;
    }
    updated := updateCount > 0;
  }

  lemma {:induction false} FindAuthorsAfterDelete(rows: seq<BooksAuthorsRecord>, bookId: int, other: int)
    ensures FindAuthorsByBookId(DeleteLinksOfBook(rows, bookId), other)
            == if other == bookId then [] else FindAuthorsByBookId(rows, other)
  {
    if rows != [] {
      var head := if rows[0].bookId == bookId then [] else [rows[0]];
      var rest := DeleteLinksOfBook(rows[1..], bookId);
      FindAuthorsAfterDelete(rows[1..], bookId, other);
      FindAuthorsByBookIdAppend(head, rest, other);
    }
  }

  lemma {:induction false} FindAuthorsOfLinks(bookId: int, authorIds: seq<int>, other: int)
    ensures FindAuthorsByBookId(LinksOf(bookId, authorIds), other) == if other == bookId then authorIds else []
  {
    if authorIds != [] {
      var init := authorIds[..|authorIds| - 1];
      var last := authorIds[|authorIds| - 1];
      FindAuthorsOfLinks(bookId, init, other);
      FindAuthorsByBookIdAppend(LinksOf(bookId, init), [BooksAuthorsRecord(bookId, last)], other);
      assert init + [last] == authorIds;
    }
  }

  /** After an update of an existing book, its author list is exactly `authorIds`, in order
      (so an empty list leaves it with no links), and every other book keeps its author list. */
  lemma RelinkFindAuthors(rows: seq<BooksAuthorsRecord>, bookId: int, authorIds: seq<int>, other: int)
    ensures FindAuthorsByBookId(Relink(rows, bookId, authorIds), bookId) == authorIds
    ensures other != bookId ==>
      FindAuthorsByBookId(Relink(rows, bookId, authorIds), other) == FindAuthorsByBookId(rows, other)
  {
    FindAuthorsByBookIdAppend(DeleteLinksOfBook(rows, bookId), LinksOf(bookId, authorIds), bookId);
    FindAuthorsByBookIdAppend(DeleteLinksOfBook(rows, bookId), LinksOf(bookId, authorIds), other);
    FindAuthorsAfterDelete(rows, bookId, bookId);
    FindAuthorsAfterDelete(rows, bookId, other);
    FindAuthorsOfLinks(bookId, authorIds, bookId);
    FindAuthorsOfLinks(bookId, authorIds, other);
  }
}
