/** The response projections the services return. */
module Responses {
  import opened Results
  import opened AuthorDomain
  import opened Store

  /** The birth date stays a day number; its ISO text form is not modelled. */
  datatype AuthorResponse = AuthorResponse(id: int, name: string, birthDate: Day)

  datatype BookResponse = BookResponse(id: int, title: string, price: int, status: string)

  /** `AuthorResponse(author)`, which dereferences the id with `!!`. */
  function AuthorResponseOf(author: Author): AuthorResponse
    requires author.id.Some?
    reads author
  {
    AuthorResponse(author.id.value.id, author.name, author.birthDate.birthDate)
  }

  /** A book response made field by field from a books row. */
  function BookResponseOf(book: BooksRecord): BookResponse {
    BookResponse(book.id, book.title, book.price, book.status)
  }
}
