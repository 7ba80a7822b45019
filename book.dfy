/** The Book aggregate and its value objects. */
module BookDomain {
  import opened Results
  import opened Text
  import opened AuthorDomain

  const MaxTitleLength := 255
  const MaxPrice := 1000000
  const TitleEmpty := "Title cannot be empty"
  const TitleTooLong := "Title cannot exceed 255 characters"
  const PriceNegative := "Price cannot be negative"
  const PriceTooHigh := "Price cannot exceed 1,000,000"
  const NoAuthors := "A book must have at least one author"

  datatype BookId = BookId(id: string)

  datatype BookStatus = UNPUBLISHED | PUBLISHED

  predicate ValidTitle(title: string) {
    IsNotBlank(title) && |title| <= MaxTitleLength
  }

  predicate ValidPrice(price: int) {
    0 <= price <= MaxPrice
  }

  type BookTitle = title: string | ValidTitle(title) witness "T"

  type BookPrice = price: int | ValidPrice(price)

  /** The `BookTitle` constructor: the blank check runs before the length check. */
  function NewBookTitle(title: string): (r: Result<BookTitle>)
    ensures r.Ok? <==> ValidTitle(title)
    ensures r.Ok? ==> r.value == title
    ensures !IsNotBlank(title) ==> r == Err(TitleEmpty)
    ensures IsNotBlank(title) && |title| > MaxTitleLength ==> r == Err(TitleTooLong)
  {
    if !IsNotBlank(title) then Err(TitleEmpty)
    else if |title| > MaxTitleLength then Err(TitleTooLong)
    else Ok(title)
  }

  /** The `BookPrice` constructor. */
  function NewBookPrice(price: int): (r: Result<BookPrice>)
    ensures r.Ok? <==> 0 <= price <= MaxPrice
    ensures r.Ok? ==> r.value == price
    ensures price < 0 ==> r == Err(PriceNegative)
    ensures price > MaxPrice ==> r == Err(PriceTooHigh)
  {
    if price < 0 then Err(PriceNegative)
    else if price > MaxPrice then Err(PriceTooHigh)
    else Ok(price)
  }

  /** A book. `id` never changes; the other fields change only through the methods below,
      and the author list is never empty. */
  class Book {
    const id: Option<BookId>
    var title: BookTitle
    var price: BookPrice
    var authorIds: seq<AuthorId>
    var status: BookStatus

    ghost predicate Valid()
      reads this
    {
      |authorIds| > 0
    }

    constructor (id: Option<BookId>, title: BookTitle, price: BookPrice, authorIds: seq<AuthorId>, status: BookStatus)
      requires |authorIds| > 0
      ensures Valid()
      ensures this.id == id && this.title == title && this.price == price
      ensures this.authorIds == authorIds && this.status == status
    {
      this.id := id;
      this.title := title;
      this.price := price;
      this.authorIds := authorIds;
      this.status := status;
    }

    /** Construction as the source does it: the init block rejects an empty author list. */
    static method Create(id: Option<BookId>, title: BookTitle, price: BookPrice, authorIds: seq<AuthorId>, status: BookStatus)
      returns (r: Result<Book>)
      ensures r.Err? <==> |authorIds| == 0
      ensures r.Err? ==> r.error == NoAuthors
      ensures r.Ok? ==> fresh(r.value) && r.value.Valid()
      ensures r.Ok? ==> r.value.id == id && r.value.title == title && r.value.price == price
      ensures r.Ok? ==> r.value.authorIds == authorIds && r.value.status == status
    {
      if |authorIds| == 0 {
        return Err(NoAuthors);
      }
      var book := new Book(id, title, price, authorIds, status);
      return Ok(book);
    }

    method UpdatePrice(newPrice: int) returns (r: Result<()>)
      requires Valid()
      modifies this
      ensures Valid()
      ensures r.Ok? <==> ValidPrice(newPrice)
      ensures r.Err? ==> r.error == NewBookPrice(newPrice).error && price == old(price)
      ensures r.Ok? ==> price == newPrice
      ensures title == old(title) && authorIds == old(authorIds) && status == old(status)
    {
      var p :- NewBookPrice(newPrice);
      price := p;
      return Ok(());
    }

    method UpdateAuthors(newAuthorIds: seq<AuthorId>) returns (r: Result<()>)
      requires Valid()
      modifies this
      ensures Valid()
      ensures r.Err? <==> |newAuthorIds| == 0
      ensures r.Err? ==> r.error == NoAuthors && authorIds == old(authorIds)
      ensures r.Ok? ==> authorIds == newAuthorIds
      ensures title == old(title) && price == old(price) && status == old(status)
    {
      if |newAuthorIds| == 0 {
        return Err(NoAuthors);
      }
      authorIds := newAuthorIds;
      return Ok(());
    }

    /** Publishing is one-way and idempotent: a published book is left exactly as it was. */
    method Publish()
      requires Valid()
      modifies this
      ensures Valid()
      ensures status == PUBLISHED
      ensures title == old(title) && price == old(price) && authorIds == old(authorIds)
      ensures old(status) == PUBLISHED ==> unchanged(this)
    {
      status := PUBLISHED;
    }
  }
}
