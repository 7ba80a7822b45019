# bookmanagement — a Dafny model of the book and author core

bookmanagement is a Kotlin/Spring service that keeps authors and books in a relational database. Books and authors are linked through a `books_authors` join table. This project models its core:

- **Domain.** The `Author` and `Book` entities and their inline value classes (`AuthorName`, `AuthorBirthDate`, `BookTitle`, `BookPrice`, the ids and `BookStatus`).
- **Repositories.** `AuthorRepository`, `BookRepository` and `BooksAuthorsRepository`, modelled over an in-memory `Store.Database`. It has the authors and books tables keyed by id, the join table as a sequence of rows in table order, and one id sequence per keyed table.
- **Services.** `AuthorService` and `BookService`.

How the Kotlin becomes Dafny:

- **Value classes.** Each one becomes a subset type that holds exactly the values its `init` block accepts. Its constructor becomes a smart constructor that returns `Result`. A failing `require` becomes `Err` carrying the exception's exact message. The check of `AuthorBirthDate` reads the clock, so its value also records, as a ghost field, the day it was checked on. The subset type then holds only dates strictly before that day.
- **Entities.** `Author` and `Book` update their fields in place, so they are classes with `modifies` clauses.
- **Repositories and services.** These hold no state of their own, so they are modules. Their operations are methods that modify the `Database`, and their `ensures` give the new tables. Simple inserts (`AuthorRepository.Save`, `BookRepository.Save`, `BooksAuthorsRepository.CreateBookAuthor`, `AuthorService.CreateAuthor`) state the new tables directly. The loops and rewrites (`BookRepository.Update`, `BooksAuthorsRepository.DeleteBookAuthor`, `BookService.CreateBook`, `AuthorService.UpdateAuthor`) are specified through functions over the table values (`Relink`, `DeleteBookAuthorRows`, `LinkedAuthorIds`, `ApplyUpdate`), and the lemmas are proved about those functions.
- **The clock.** `LocalDate.now()` becomes a `today` parameter. Dates are day numbers.
- **Failing lookups.** `AuthorRepository.findById` rebuilds the value objects from the stored row, so it can throw when a stored row no longer validates. The model keeps that as an error path (`AuthorRepository.Lookup`), and the services propagate it.
- **Rollback.** `createBook` is `@Transactional`. When such a lookup throws part-way through, the book row and the links already written are restored. The id sequence is not restored, as a database sequence is not rolled back either.

The model follows the code where other descriptions of the system differ:

- A title may have at most 255 characters, not 500.
- A birth date must be strictly before today.
- `createBook` silently skips an author id with no row instead of failing. It validates nothing and does not build a `Book`.
- `updateBook` rewrites every column and all links of an existing book. There is no partial update, and an unknown id just returns `false`.
- `updateAuthor` of an unknown id returns no response (`Ok(None)`).

## Model

| member | source | states |
|---|---|---|
| Text.NotBlankHasNonWhitespace | src/main/kotlin/com/tatswata/bookmanagement/domain/author/Author.kt:30 | `isNotBlank` holds exactly when some character is not whitespace |
| AuthorDomain.NewAuthorName | src/main/kotlin/com/tatswata/bookmanagement/domain/author/Author.kt:27-35 | succeeds iff the name is not blank and has at most 500 characters, and then holds the name unchanged. A blank name fails with "Name cannot be empty" (checked first); a long one fails with "Name cannot exceed 500 characters" |
| AuthorDomain.NewAuthorBirthDate | src/main/kotlin/com/tatswata/bookmanagement/domain/author/Author.kt:37-42 | succeeds iff the date is strictly before today, and keeps it together with the day it was checked on; otherwise fails with "birthDate cannot be in the future" |
| AuthorDomain.Author.constructor | src/main/kotlin/com/tatswata/bookmanagement/domain/author/Author.kt:5-13 | the new author holds the given id, name and birth date; the argument types admit only a valid name and a birth date that passed its check |
| AuthorDomain.Author.Rename | src/main/kotlin/com/tatswata/bookmanagement/domain/author/Author.kt:15-17 | the name becomes the new name; the birth date is unchanged |
| AuthorDomain.Author.UpdateBirthDate | src/main/kotlin/com/tatswata/bookmanagement/domain/author/Author.kt:19-21 | the birth date becomes the new one; the name is unchanged |
| BookDomain.NewBookTitle | src/main/kotlin/com/tatswata/bookmanagement/domain/book/Book.kt:42-48 | succeeds iff the title is not blank and has at most 255 characters; blank fails with "Title cannot be empty" before length fails with "Title cannot exceed 255 characters" |
| BookDomain.NewBookPrice | src/main/kotlin/com/tatswata/bookmanagement/domain/book/Book.kt:50-56 | succeeds iff 0 <= price <= 1,000,000; a negative price fails with "Price cannot be negative", a larger one with "Price cannot exceed 1,000,000" |
| BookDomain.Book.constructor | src/main/kotlin/com/tatswata/bookmanagement/domain/book/Book.kt:5-23 | given a non-empty author list, the book holds exactly the given fields and its invariant (author list never empty) holds |
| BookDomain.Book.Create | src/main/kotlin/com/tatswata/bookmanagement/domain/book/Book.kt:5-23 | fails with "A book must have at least one author" iff the list is empty; otherwise a fresh valid book with the given fields |
| BookDomain.Book.UpdatePrice | src/main/kotlin/com/tatswata/bookmanagement/domain/book/Book.kt:25-27 | succeeds iff the new price is valid and then stores it; on failure the message of the price check and the old price; other fields unchanged, invariant kept |
| BookDomain.Book.UpdateAuthors | src/main/kotlin/com/tatswata/bookmanagement/domain/book/Book.kt:29-32 | fails iff the new list is empty (leaving the list as it was), otherwise replaces it; other fields unchanged, invariant kept |
| BookDomain.Book.Publish | src/main/kotlin/com/tatswata/bookmanagement/domain/book/Book.kt:34-36 | the status becomes PUBLISHED, nothing else changes, and publishing a published book changes nothing |
| AuthorRepository.Lookup | src/main/kotlin/com/tatswata/bookmanagement/repository/AuthorRepository.kt:15-24 | no author iff the id has no row; a found author is the stored row; it throws iff the stored row fails the name or birth-date check, with the name check's message first |
| AuthorRepository.FindById | src/main/kotlin/com/tatswata/bookmanagement/repository/AuthorRepository.kt:15-24 | fails exactly as `Lookup` does; `null` iff no row; otherwise a fresh author with that id and the stored name and birth date |
| AuthorRepository.Save | src/main/kotlin/com/tatswata/bookmanagement/repository/AuthorRepository.kt:26-48 | without id: inserts the row under an unused id and returns the author with that id, failing (row kept) iff the birth date is not before today; with id: overwrites that row only if it exists and returns the same author; other tables unchanged |
| BookRepository.FindBooksByIds | src/main/kotlin/com/tatswata/bookmanagement/repository/BookRepository.kt:12-16 | exactly the stored rows whose id is listed, one record per id |
| BookRepository.Save | src/main/kotlin/com/tatswata/bookmanagement/repository/BookRepository.kt:18-24 | inserts the unvalidated row under an id not used before and returns it with that id; other tables unchanged |
| BookRepository.DeleteLinksOfBook | src/main/kotlin/com/tatswata/bookmanagement/repository/BookRepository.kt:35-37 | removes every link row of the book and keeps every other row with its multiplicity |
| BookRepository.LinksOf | src/main/kotlin/com/tatswata/bookmanagement/repository/BookRepository.kt:39-44 | one link row per listed author id |
| BookRepository.LinksOfContents | src/main/kotlin/com/tatswata/bookmanagement/repository/BookRepository.kt:39-44 | the k-th inserted row links the book to the k-th listed author |
| BookRepository.LinksOfAppend | src/main/kotlin/com/tatswata/bookmanagement/repository/BookRepository.kt:39-44 | one more author id appends exactly one more link row at the end |
| BookRepository.Update | src/main/kotlin/com/tatswata/bookmanagement/repository/BookRepository.kt:26-48 | returns true iff the book exists; then overwrites its row and replaces its links by delete-all-then-reinsert in list order; otherwise nothing changes |
| BookRepository.FindAuthorsAfterDelete | src/main/kotlin/com/tatswata/bookmanagement/repository/BookRepository.kt:35-37 | after deleting a book's links it has no authors and every other book keeps its author list |
| BookRepository.FindAuthorsOfLinks | src/main/kotlin/com/tatswata/bookmanagement/repository/BookRepository.kt:39-44 | the inserted rows give the book exactly the listed authors, in order, and no other book any |
| BookRepository.RelinkFindAuthors | src/main/kotlin/com/tatswata/bookmanagement/repository/BookRepository.kt:34-45 | after an update the book's author list is exactly the given list (empty allowed) and other books' lists are unchanged |
| BooksAuthorsRepository.CreateBookAuthor | src/main/kotlin/com/tatswata/bookmanagement/repository/BooksAuthorsRepository.kt:11-17 | appends the row (bookId, authorId) and returns it; other tables unchanged |
| BooksAuthorsRepository.FindAuthorsByBookId | src/main/kotlin/com/tatswata/bookmanagement/repository/BooksAuthorsRepository.kt:19-25 | an id is listed iff a link row pairs it with the book |
| BooksAuthorsRepository.FindBooksByAuthorId | src/main/kotlin/com/tatswata/bookmanagement/repository/BooksAuthorsRepository.kt:27-33 | a book id is listed iff a link row pairs it with the author |
| BooksAuthorsRepository.DeleteBookAuthorRows | src/main/kotlin/com/tatswata/bookmanagement/repository/BooksAuthorsRepository.kt:35-40 | removes every copy of the row (bookId, authorId) and keeps every other row with its multiplicity |
| BooksAuthorsRepository.DeleteBookAuthor | src/main/kotlin/com/tatswata/bookmanagement/repository/BooksAuthorsRepository.kt:35-40 | the join table becomes `DeleteBookAuthorRows` of the old one; other tables unchanged |
| BooksAuthorsRepository.FindAuthorsByBookIdAppend | src/main/kotlin/com/tatswata/bookmanagement/repository/BooksAuthorsRepository.kt:19-25 | the lookup distributes over appended rows, so table order is kept |
| BooksAuthorsRepository.FindBooksByAuthorIdAppend | src/main/kotlin/com/tatswata/bookmanagement/repository/BooksAuthorsRepository.kt:27-33 | the same for the lookup by author |
| BooksAuthorsRepository.CreateBookAuthorThenFind | src/main/kotlin/com/tatswata/bookmanagement/repository/BooksAuthorsRepository.kt:11-17 | after a link is created each lookup lists the new partner last, after the old ones |
| BooksAuthorsRepository.DeleteBookAuthorThenFind | src/main/kotlin/com/tatswata/bookmanagement/repository/BooksAuthorsRepository.kt:35-40 | after deletion the author is no longer listed for the book and every other book's list is unchanged |
| AuthorService.GetBooksWrittenByAuthor | src/main/kotlin/com/tatswata/bookmanagement/service/AuthorService.kt:19-23 | one response per book the lookup returns, in the same order, carrying that book's fields |
| AuthorService.BookResponses | src/main/kotlin/com/tatswata/bookmanagement/service/AuthorService.kt:20-22 | the `map` keeps length and maps each book to its response |
| AuthorService.CreateAuthor | src/main/kotlin/com/tatswata/bookmanagement/service/AuthorService.kt:25-33 | succeeds iff the name is valid and the birth date is before today (name checked first, exact messages); on success exactly one row is inserted under an unused id and returned; on failure nothing changes |
| AuthorService.ApplyUpdate | src/main/kotlin/com/tatswata/bookmanagement/service/AuthorService.kt:40-47 | the written row replaces each supplied field and keeps each omitted one; fails iff a supplied field is invalid, the name first |
| AuthorService.UpdateAuthor | src/main/kotlin/com/tatswata/bookmanagement/service/AuthorService.kt:35-51 | no response iff the id has no row; a failing stored row or a failing new field leaves the table unchanged with that message; otherwise the row becomes `ApplyUpdate` of the stored row and is returned |
| AuthorService.CreatedAuthorReadsBack | src/main/kotlin/com/tatswata/bookmanagement/service/AuthorService.kt:26-33 | the row `createAuthor` writes is read back by `findById` unchanged |
| AuthorService.UpdatedAuthorReadsBack | src/main/kotlin/com/tatswata/bookmanagement/service/AuthorService.kt:36-51 | the row `updateAuthor` writes is read back by `findById` unchanged |
| BookService.ExistingAuthorIds | src/main/kotlin/com/tatswata/bookmanagement/service/BookService.kt:21-25 | the ids that get linked are never more than the ids given |
| BookService.ExistingAuthorIdsCount | src/main/kotlin/com/tatswata/bookmanagement/service/BookService.kt:21-25 | an existing author id is linked as often as it is listed, and a missing one never |
| BookService.LinkedAuthorIds | src/main/kotlin/com/tatswata/bookmanagement/service/BookService.kt:21-25 | when no lookup throws, the linked ids are exactly the existing ids, in order |
| BookService.LinkedAuthorIdsSucceeds | src/main/kotlin/com/tatswata/bookmanagement/service/BookService.kt:21-25 | the loop completes iff no lookup of a listed id throws |
| BookService.LinkedAuthorIdsError | src/main/kotlin/com/tatswata/bookmanagement/service/BookService.kt:21-25 | a failing loop reports the error of the first listed id whose lookup throws |
| BookService.LinkedAuthorIdsFailFast | src/main/kotlin/com/tatswata/bookmanagement/service/BookService.kt:21-25 | once a prefix of the list throws, the whole list throws the same error |
| BookService.LinkExistingAuthors | src/main/kotlin/com/tatswata/bookmanagement/service/BookService.kt:21-25 | the loop appends one link per existing author in list order and fails with the first throwing lookup's message; when it fails, the links of the existing ids before the throwing one stay appended; no other table changes |
| BookService.LinkStep | src/main/kotlin/com/tatswata/bookmanagement/service/BookService.kt:22-24 | one iteration: an existing id extends the linked ids, a missing one is skipped |
| BookService.LinkStepError | src/main/kotlin/com/tatswata/bookmanagement/service/BookService.kt:22-24 | one iteration whose lookup throws ends the loop with that error |
| BookService.CreateBook | src/main/kotlin/com/tatswata/bookmanagement/service/BookService.kt:18-27 | succeeds iff no lookup throws; then the book row is inserted under an unused id with the given fields, and one link per existing author is appended; on failure books and links are rolled back and the error is the first lookup's |
| BookService.CreateBookLinksExistingAuthors | src/main/kotlin/com/tatswata/bookmanagement/service/BookService.kt:19-27 | after `createBook` the new book's author list gains exactly the existing listed ids in order, and other books' lists are unchanged |
| BookService.UpdateBook | src/main/kotlin/com/tatswata/bookmanagement/service/BookService.kt:29-33 | behaves exactly as `BookRepository.Update`, with no validation and no author-existence check |

## Left out

- The REST controllers, the request/response DTO parsing, and the global exception handler. The exception handler maps an `IllegalArgumentException` to a 400 response; the model stops at the `Err` message.
- SQL and jOOQ themselves. Tables are maps and a sequence. Foreign-key and not-null constraints of the schema are not modelled, so a link to a missing book or author is accepted here.
- Transactions are modelled only where they are observable: the rollback in `createBook`. `createAuthor` and `updateAuthor` fail before writing anything. Concurrency and isolation are not modelled.
- The clock: `LocalDate.now()` is the `today` parameter, and `LocalDate` is a day number. The ISO text form that `AuthorResponse` puts in `birthDate` is not modelled; the response keeps the day number.
- `BookStatus`'s Japanese display label `jp` is not modelled.
- `BookId` holds a string while the books table uses integer ids. Nothing in the core connects the two, and the model keeps both as written.
- AuthorDomain.NewAuthorName: Kotlin `String.length` counts UTF-16 code units, and the model counts Unicode scalar values. A name with characters outside the Basic Multilingual Plane is therefore accepted here up to a larger length.
- BookDomain.NewBookTitle: the same UTF-16 length difference as for names.
- BookDomain.NewBookPrice: Kotlin `Int` is 32-bit, and prices are unbounded integers here. Every accepted price fits 32 bits, so only inputs that Kotlin could not even represent differ.
- BookRepository.Save: promises an id not used before rather than the exact serial value, and the price column's 32-bit range is not modelled.
- BookRepository.FindBooksByIds: returns a set, because the query has no ORDER BY and its result order is unspecified.
- BooksAuthorsRepository.FindAuthorsByBookId: returns rows in insertion order, which is one order the query without ORDER BY may return.
- BooksAuthorsRepository.FindBooksByAuthorId: the same ordering assumption.
- AuthorService.GetBooksWrittenByAuthor: it calls `BookRepository.findBooksByAuthorId` and `BookResponse(book)`. Neither is defined in the repository's code, so the lookup is a function parameter and the response is built field by field from a books row.
- AuthorService.CreateAuthor and AuthorService.UpdateAuthor return the birth date as a day number, not its text form.
