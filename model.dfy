/**
 * Request and response shapes of the service (internal/model/model.go,
 * internal/model/book_model.go): the projection of a row into a response,
 * the pagination envelope, and the acceptance rules that the validation
 * tags of the two book requests declare.
 */
module Model {
  import opened Wrappers
  import opened Entity

  /** What the service returns for one book: the row without its audit stamps. */
  datatype BookResponse = BookResponse(
    bookId: Uuid,
    isbn: string,
    title: string,
    author: string,
    publisher: string,
    publishedAt: Date,
    stock: Int64)

  /** `BookToResponse`: a field-by-field copy that leaves out CreatedAt and UpdatedAt. */
  function BookToResponse(book: Book): BookResponse
  {
    BookResponse(book.bookId, book.isbn, book.title, book.author,
                 book.publisher, book.publishedAt, book.stock)
  }

  /**
   * Two rows give the same response exactly when they agree on everything
   * but the audit stamps: the response keeps every other field and forgets
   * exactly those two.
   */
  lemma ResponseForgetsOnlyAuditStamps(a: Book, b: Book)
    ensures BookToResponse(a) == BookToResponse(b)
            <==> a.(createdAt := b.createdAt, updatedAt := b.updatedAt) == b
  {
  }

  // ---------------------------------------------------------------------
  // Pagination envelope

  /** Query parameters of the list endpoint. */
  datatype PaginationRequest = PaginationRequest(offset: Int64, limit: Int64)

  /** The tags on PaginationRequest: `min=0` on offset, `min=1,max=100` on limit. */
  predicate PaginationTagsHold(p: PaginationRequest)
  {
    p.offset >= 0 && 1 <= p.limit <= 100
  }

  datatype PaginationMeta = PaginationMeta(offset: int, limit: int, total: int)

  /** A navigation link, reduced to the two numbers its query string carries. */
  datatype Link = Link(offset: int, limit: int)

  /** The optional links are the `omitempty` fields Next and Prev. */
  datatype PaginationLinks = PaginationLinks(
    self: Link,
    first: Link,
    last: Link,
    next: Option<Link>,
    prev: Option<Link>)

  datatype PaginatedResponse = PaginatedResponse(
    data: seq<BookResponse>,
    meta: PaginationMeta,
    links: PaginationLinks)

  // ---------------------------------------------------------------------
  // Book requests and their validation tags

  /**
   * The body of a create request. The date is the same abstract Date as the
   * entity's, so its zero value is the UPDATE sentinel 0001-01-01.
   */
  datatype CreateBookRequest = CreateBookRequest(
    isbn: string,
    title: string,
    author: string,
    publisher: string,
    publishedAt: Date,
    stock: Int64)

  /** The body of an update request: a book id plus an embedded create request. */
  datatype UpdateBookRequest = UpdateBookRequest(bookId: Uuid, fields: CreateBookRequest)

  /**
   * The validator's verdict on a CreateBookRequest. `required` rejects the
   * zero value of the field's type; `isbnRule` is the validator's `isbn`
   * check, which lives outside this model.
   */
  predicate CreateAccepted(isbnRule: string -> bool, r: CreateBookRequest)
  {
    && r.isbn != "" && isbnRule(r.isbn)
    && r.title != ""
    && r.author != ""
    && r.publisher != ""
    && r.publishedAt != ZeroDate
    && r.stock != 0
  }

  /**
   * The validator's verdict on an UpdateBookRequest: the book id is
   * `required`, and the embedded create request is validated with its own tags.
   */
  predicate UpdateAccepted(isbnRule: string -> bool, r: UpdateBookRequest)
  {
    r.bookId != NilUuid && CreateAccepted(isbnRule, r.fields)
  }

  /**
   * The stock tag is `required` alone: zero is the only stock it refuses,
   * so negative stock passes.
   */
  lemma StockTagRefusesOnlyZero(isbnRule: string -> bool, r: CreateBookRequest, stock: Int64)
    ensures CreateAccepted(isbnRule, r.(stock := stock))
            <==> stock != 0 && CreateAccepted(isbnRule, r.(stock := 1))
  {
  }

  /**
   * An accepted update carries a value for every text field and a date other
   * than 0001-01-01: none of the "keep" sentinels of the UPDATE statement
   * except the stock's can get past validation.
   */
  lemma AcceptedUpdateHasNoFieldSentinel(isbnRule: string -> bool, r: UpdateBookRequest)
    requires UpdateAccepted(isbnRule, r)
    ensures r.fields.isbn != "" && r.fields.title != "" && r.fields.author != ""
    ensures r.fields.publisher != "" && r.fields.publishedAt != ZeroDate
  {
  }

  /** The stock sentinel -1 does get past validation. */
  lemma StockSentinelPassesValidation(isbnRule: string -> bool, r: UpdateBookRequest)
    requires UpdateAccepted(isbnRule, r)
    ensures UpdateAccepted(isbnRule, r.(fields := r.fields.(stock := -1)))
  {
  }
}
