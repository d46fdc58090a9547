/**
 * BookController (internal/controller/book_controller.go): reads the
 * request, calls the use case, and turns the outcome into an HTTP reply.
 * An error reply is reduced to its status code and message; the body of
 * a paginated reply carries link offsets rather than URL strings.
 *
 * A request body or query string that does not parse is an input of None.
 */
module Controller {
  import opened Wrappers
  import opened Entity
  import opened Model
  import Sql = SqlQueries
  import opened Repository
  import opened Usecase

  /** A reply: a success status with its body, or the error envelope's code and message. */
  datatype Reply<T> = Reply(status: int, body: T) | ErrorReply(code: int, message: string)

  /**
   * The fallback every handler applies to a use-case error: a fiber error
   * keeps its code and message, anything else becomes a 500 with the
   * handler's own message.
   */
  function FromUsecaseError<T>(e: AppError, fallback: string): (r: Reply<T>)
    ensures r.ErrorReply?
    ensures e.HttpError? ==> r.code == e.code && r.message == e.message
    ensures e.Internal? ==> r.code == StatusInternalServerError && r.message == fallback
  {
    match e
    case HttpError(code, message) => ErrorReply(code, message)
    case Internal(_) => ErrorReply(StatusInternalServerError, fallback)
  }

  // ---------------------------------------------------------------------
  // Pagination arithmetic of GetBooks

  /** `max` on int64. */
  function Max(a: int, b: int): (m: int)
    ensures m >= a && m >= b
    ensures m == a || m == b
  {
    if a > b then a else b
  }

  /** The query after GetBooks' in-place defaults: a limit of 0 or less becomes 10, a negative offset 0. */
  function Normalize(p: PaginationRequest): (q: PaginationRequest)
    ensures q.offset >= 0 && q.limit >= 1
    ensures p.limit <= 0 ==> q.limit == 10
    ensures p.limit > 0 ==> q.limit == p.limit
    ensures p.offset < 0 ==> q.offset == 0
    ensures p.offset >= 0 ==> q.offset == p.offset
  {
    PaginationRequest(if p.offset < 0 then 0 else p.offset, if p.limit <= 0 then 10 else p.limit)
  }

  /**
   * The requests GetBooks serves after normalising are exactly those the
   * PaginationRequest tags admit: normalising lands inside the tags unless
   * the limit is over 100, and leaves a request the tags admit as it is.
   */
  lemma NormalizeMeetsPaginationTags(p: PaginationRequest)
    ensures PaginationTagsHold(Normalize(p)) <==> Normalize(p).limit <= 100
    ensures PaginationTagsHold(p) ==> Normalize(p) == p
    ensures Normalize(Normalize(p)) == Normalize(p)
  {
  }

  /** The offset of the last link: the start of the page holding row `total`. */
  lemma LastOffset(total: nat, limit: nat)
    requires limit >= 1
    ensures (total / limit) * limit == total - total % limit
    ensures (total / limit) * limit % limit == 0
  {
    var q := total / limit;
    var a, b := (q * limit) / limit, (q * limit) % limit;
    assert q * limit == a * limit + b && 0 <= b < limit;
    assert (q - a) * limit == b;
    MultipleAtLeastDivisor(q - a, limit);
  }

  /** A non-zero multiple of `d` is at least `d` away from zero. */
  lemma MultipleAtLeastDivisor(k: int, d: int)
    requires d >= 1
    ensures k >= 1 ==> k * d >= d
    ensures k <= -1 ==> k * d <= -d
  {
    if k >= 1 {
      assert k * d == (k - 1) * d + d;
    } else if k <= -1 {
      assert k * d == -((-k - 1) * d) - d;
    }
  }

  /**
   * The navigation links of a page at `offset` of size `limit` over `total`
   * rows, computed over unbounded integers.
   */
  function Navigation(offset: int, limit: int, total: int): (links: PaginationLinks)
    requires offset >= 0 && limit >= 1 && total >= 0
    ensures links.self == Link(offset, limit) && links.first == Link(0, limit)
    ensures links.last.limit == limit && links.last.offset % limit == 0
    ensures total - limit < links.last.offset <= total
    ensures total % limit == 0 ==> links.last.offset == total
    ensures links.next.Some? <==> offset + limit < total
    ensures links.next.Some? ==> links.next.value == Link(offset + limit, limit)
    ensures links.prev.Some? <==> offset > 0
    ensures links.prev.Some? ==> links.prev.value.limit == limit
    ensures links.prev.Some? ==> 0 <= links.prev.value.offset < offset <= links.prev.value.offset + limit
  {
    LastOffset(total, limit);
    PaginationLinks(
      Link(offset, limit),
      Link(0, limit),
      Link((total / limit) * limit, limit),
      if offset + limit < total then Some(Link(offset + limit, limit)) else None,
      if offset > 0 then Some(Link(Max(0, offset - limit), limit)) else None)
  }

  /** The next link, when present, opens a page that holds at least one row. */
  lemma NextLinkOpensNonEmptyPage(rows: seq<Book>, offset: nat, limit: nat)
    requires limit >= 1
    ensures Navigation(offset, limit, |rows|).next.Some? ==>
              |Sql.SelectPage(rows, Navigation(offset, limit, |rows|).next.value.offset, limit)| > 0
  {
  }

  /**
   * The last link opens the page that holds the remaining `total % limit`
   * rows and nothing after them; when `total` is a multiple of `limit`
   * that page is empty.
   */
  lemma LastLinkOpensFinalPage(rows: seq<Book>, offset: nat, limit: nat)
    requires limit >= 1
    ensures var last := Navigation(offset, limit, |rows|).last.offset;
            && last >= 0
            && |Sql.SelectPage(rows, last, limit)| == |rows| % limit
            && last + limit > |rows|
  {
  }

  // ---------------------------------------------------------------------
  // The link arithmetic as written, on int64

  /** Two's-complement int64 arithmetic: `x` reduced into the int64 range. */
  function WrapInt64(x: int): (r: Int64)
    ensures (r - x) % 0x1_0000_0000_0000_0000 == 0
    ensures MinInt64 <= x <= MaxInt64 ==> r == x
  {
    (x - MinInt64) % 0x1_0000_0000_0000_0000 + MinInt64
  }

  /**
   * The links as book_controller.go computes them: `offset + limit` is an
   * int64 sum and wraps around past MaxInt64.
   */
  function NavigationAsWritten(offset: Int64, limit: Int64, total: Int64): (links: PaginationLinks)
    requires offset >= 0 && limit >= 1 && total >= 0
    ensures offset + limit <= MaxInt64 ==> links == Navigation(offset, limit, total)
  {
    var sum := WrapInt64(offset + limit);
    Navigation(offset, limit, total).(
      next := if sum < total then Some(Link(sum, limit)) else None)
  }

  /**
   * With offset MaxInt64, limit 10 and an empty table, the int64 sum wraps
   * to MinInt64 + 9: the reply as written offers a next link with a
   * negative offset, where the unbounded rule offers none.
   */
  lemma NextLinkOverflows()
    ensures NavigationAsWritten(MaxInt64, 10, 0).next == Some(Link(MinInt64 + 9, 10))
    ensures Navigation(MaxInt64, 10, 0).next == None
  {
  }

  /**
   * With the unbounded rule, a next link over a table of at most MaxInt64
   * rows has an offset that fits in an int64 again: the comparison
   * `offset < total - limit` never overflows and gives the same links.
   */
  lemma NavigationFitsInt64(offset: Int64, limit: Int64, total: Int64)
    requires offset >= 0 && limit >= 1 && total >= 0
    ensures var links := Navigation(offset, limit, total);
            && (links.next.Some? <==> offset < total - limit)
            && (links.next.Some? ==> 0 <= links.next.value.offset <= MaxInt64)
  {
  }

  // ---------------------------------------------------------------------
  // The handlers

  class BookController {
    const usecase: BookUsecase

    constructor (usecase: BookUsecase)
      ensures this.usecase == usecase
    {
      this.usecase := usecase;
    }

    /** `BookCreate`: 201 with the created book. */
    method BookCreate(body: Option<CreateBookRequest>, newId: Option<Uuid>, dbFault: bool,
                      createdAt: Timestamp, updatedAt: Timestamp)
      returns (reply: Reply<BookResponse>)
      requires usecase.repo.Valid()
      modifies usecase.repo
      ensures usecase.repo.Valid()
      ensures body.None? || !CreateAccepted(usecase.isbnRule, body.value) ==>
                reply == ErrorReply(StatusBadRequest, "Invalid request payload") && unchanged(usecase.repo)
      ensures body.Some? && CreateAccepted(usecase.isbnRule, body.value) && newId.None? ==>
                reply == ErrorReply(StatusInternalServerError, "Failed to create book") && unchanged(usecase.repo)
      ensures body.Some? && CreateAccepted(usecase.isbnRule, body.value) && newId.Some? ==>
                var req, id := body.value, newId.value;
                && (dbFault || Sql.HasId(old(usecase.repo.rows), id) ==>
                      reply == ErrorReply(StatusInternalServerError, "Failed to create book")
                      && usecase.repo.rows == old(usecase.repo.rows))
                && (!dbFault && !Sql.HasId(old(usecase.repo.rows), id) ==>
                      && reply == Reply(StatusCreated, BookResponse(id, req.isbn, req.title, req.author,
                                                                    req.publisher, req.publishedAt, req.stock))
                      && usecase.repo.rows == old(usecase.repo.rows)
                           + [RequestToBook(id, req).(createdAt := createdAt, updatedAt := updatedAt)])
    {
      if body.None? {
        return ErrorReply(StatusBadRequest, "Invalid request payload");
      }
      var created := usecase.Create(body.value, newId, dbFault, createdAt, updatedAt);
      if created.Err? {
        return FromUsecaseError(created.error, "Failed to create book");
      }
      reply := Reply(StatusCreated, created.value);
    }

    /** `GetBookByISBN`: 200 with the first book carrying the ISBN. */
    method GetBookByIsbn(isbn: string, dbFault: bool) returns (reply: Reply<BookResponse>)
      requires usecase.repo.Valid()
      modifies usecase.repo
      ensures usecase.repo.Valid() && usecase.repo.rows == old(usecase.repo.rows)
      ensures isbn == "" ==> reply == ErrorReply(StatusBadRequest, "ISBN is required") && unchanged(usecase.repo)
      ensures isbn != "" && !usecase.isbnRule(isbn) ==>
                reply == ErrorReply(StatusBadRequest, "Invalid ISBN format") && unchanged(usecase.repo)
      ensures isbn != "" && usecase.isbnRule(isbn) ==>
                var found := Sql.SelectByIsbn(usecase.repo.rows, isbn);
                && (dbFault ==> reply == ErrorReply(StatusInternalServerError, "Failed to get book"))
                && (!dbFault && found.None? ==> reply == ErrorReply(StatusNotFound, "Book not found"))
                && (!dbFault && found.Some? ==> reply == Reply(StatusOK, BookToResponse(found.value)))
    {
      if isbn == "" {
        return ErrorReply(StatusBadRequest, "ISBN is required");
      }
      var book := usecase.GetByIsbn(isbn, dbFault);
      if book.Err? {
        return FromUsecaseError(book.error, "Failed to get book by ISBN");
      }
      reply := Reply(StatusOK, book.value);
    }

    /** `GetBookByID`: 200 with the book carrying the id. */
    method GetBookById(idText: string, dbFault: bool) returns (reply: Reply<BookResponse>)
      requires usecase.repo.Valid()
      modifies usecase.repo
      ensures usecase.repo.Valid() && usecase.repo.rows == old(usecase.repo.rows)
      ensures idText == "" ==> reply == ErrorReply(StatusBadRequest, "Book ID is required") && unchanged(usecase.repo)
      ensures idText != "" && usecase.parseUuid(idText).None? ==>
                reply == ErrorReply(StatusBadRequest, "Invalid book ID") && unchanged(usecase.repo)
      ensures idText != "" && usecase.parseUuid(idText).Some? ==>
                var id := usecase.parseUuid(idText).value;
                && (dbFault ==> reply == ErrorReply(StatusInternalServerError, "Failed to get book"))
                && (!dbFault && !Sql.HasId(usecase.repo.rows, id) ==> reply == ErrorReply(StatusNotFound, "Book not found"))
                && (!dbFault && Sql.HasId(usecase.repo.rows, id) ==>
                      reply == Reply(StatusOK, BookToResponse(Sql.SelectById(usecase.repo.rows, id).value)))
    {
      if idText == "" {
        return ErrorReply(StatusBadRequest, "Book ID is required");
      }
      var book := usecase.GetById(idText, dbFault);
      if book.Err? {
        return FromUsecaseError(book.error, "Failed to get book by ID");
      }
      reply := Reply(StatusOK, book.value);
    }

    /**
     * `GetBooks`: normalises the query in place, refuses a limit over 100
     * before calling the use case, and answers with the page, its meta and
     * its navigation links.
     */
    method GetBooks(query: Option<PaginationRequest>, pageFault: bool, countFault: bool)
      returns (reply: Reply<PaginatedResponse>)
      requires usecase.repo.Valid()
      modifies usecase.repo
      ensures usecase.repo.Valid() && usecase.repo.rows == old(usecase.repo.rows)
      ensures query.None? ==>
                reply == ErrorReply(StatusBadRequest, "Invalid query parameters") && unchanged(usecase.repo)
      ensures query.Some? && Normalize(query.value).limit > 100 ==>
                reply == ErrorReply(StatusBadRequest, "Maximum limit is 100") && unchanged(usecase.repo)
      ensures query.Some? && Normalize(query.value).limit <= 100 ==>
                var p, rows := Normalize(query.value), usecase.repo.rows;
                && (pageFault ==> reply == ErrorReply(StatusInternalServerError, "Failed to get books"))
                && (!pageFault && countFault ==>
                      reply == ErrorReply(StatusInternalServerError, "Failed to get total count"))
                && (!pageFault && !countFault ==>
                      reply == Reply(StatusOK, PaginatedResponse(
                                 ProjectAll(Sql.SelectPage(rows, p.offset, p.limit)),
                                 PaginationMeta(p.offset, p.limit, |rows|),
                                 Navigation(p.offset, p.limit, |rows|))))
    {
      if query.None? {
        return ErrorReply(StatusBadRequest, "Invalid query parameters");
      }
      var pagination := query.value;
      if pagination.limit <= 0 {
        pagination := pagination.(limit := 10);
      }
      if pagination.offset < 0 {
        pagination := pagination.(offset := 0);
      }
      assert pagination == Normalize(query.value);
      if pagination.limit > 100 {
        return ErrorReply(StatusBadRequest, "Maximum limit is 100");
      }

      var page := usecase.GetMany(pagination.offset, pagination.limit, pageFault, countFault);
      if page.Err? {
        return FromUsecaseError(page.error, "Failed to get books");
      }

      var offset: int, limit: int, total: int := pagination.offset, pagination.limit, page.value.total;
      assert page.value.books == ProjectAll(Sql.SelectPage(usecase.repo.rows, offset, limit));
      assert total == |usecase.repo.rows|;
      var hasNext := offset + limit < total;
      var hasPrev := offset > 0;
      var links := PaginationLinks(Link(offset, limit), Link(0, limit),
                                   Link((total / limit) * limit, limit), None, None);
      if hasNext {
        links := links.(next := Some(Link(offset + limit, limit)));
      }
      if hasPrev {
        links := links.(prev := Some(Link(Max(0, offset - limit), limit)));
      }
      assert links == Navigation(offset, limit, total);
      reply := Reply(StatusOK, PaginatedResponse(page.value.books, PaginationMeta(offset, limit, total), links));
    }

    /** `Update`: 200 with the book as stored after the merge. */
    method Update(body: Option<UpdateBookRequest>, dbFault: bool) returns (reply: Reply<BookResponse>)
      requires usecase.repo.Valid()
      modifies usecase.repo
      ensures usecase.repo.Valid()
      ensures body.None? || !UpdateAccepted(usecase.isbnRule, body.value) ==>
                reply == ErrorReply(StatusBadRequest, "Invalid request payload") && unchanged(usecase.repo)
      ensures body.Some? && UpdateAccepted(usecase.isbnRule, body.value) ==>
                var req := body.value;
                var book := RequestToBook(req.bookId, req.fields);
                && (dbFault ==> reply == ErrorReply(StatusInternalServerError, "Failed to update book")
                                && usecase.repo.rows == old(usecase.repo.rows))
                && (!dbFault && !Sql.HasId(old(usecase.repo.rows), req.bookId) ==>
                      reply == ErrorReply(StatusNotFound, "Book not found")
                      && usecase.repo.rows == old(usecase.repo.rows))
                && (!dbFault && Sql.HasId(old(usecase.repo.rows), req.bookId) ==>
                      && reply == Reply(StatusOK, BookToResponse(
                                   Sql.MergeUpdate(Sql.SelectById(old(usecase.repo.rows), req.bookId).value, book)))
                      && usecase.repo.rows == Sql.UpdateWhere(old(usecase.repo.rows), req.bookId, book))
    {
      if body.None? {
        return ErrorReply(StatusBadRequest, "Invalid request payload");
      }
      var updated := usecase.Update(body.value, dbFault);
      if updated.Err? {
        return FromUsecaseError(updated.error, "Failed to update book");
      }
      reply := Reply(StatusOK, updated.value);
    }

    /** `Delete`: 204 with no body. */
    method Delete(idText: string, dbFault: bool) returns (reply: Reply<()>)
      requires usecase.repo.Valid()
      modifies usecase.repo
      ensures usecase.repo.Valid()
      ensures idText == "" ==> reply == ErrorReply(StatusBadRequest, "Book ID is required") && unchanged(usecase.repo)
      ensures idText != "" && usecase.parseUuid(idText).None? ==>
                reply == ErrorReply(StatusBadRequest, "Invalid book ID") && unchanged(usecase.repo)
      ensures idText != "" && usecase.parseUuid(idText).Some? ==>
                var id := usecase.parseUuid(idText).value;
                && (dbFault ==> reply == ErrorReply(StatusInternalServerError, "Failed to delete book")
                                && usecase.repo.rows == old(usecase.repo.rows))
                && (!dbFault ==> usecase.repo.rows == Sql.DeleteWhere(old(usecase.repo.rows), id))
                && (!dbFault ==> !Sql.HasId(usecase.repo.rows, id))
                && (!dbFault && !Sql.HasId(old(usecase.repo.rows), id) ==>
                      reply == ErrorReply(StatusNotFound, "Book not found"))
                && (!dbFault && Sql.HasId(old(usecase.repo.rows), id) ==> reply == Reply(StatusNoContent, ()))
    {
      if idText == "" {
        return ErrorReply(StatusBadRequest, "Book ID is required");
      }
      var deleted := usecase.Delete(idText, dbFault);
      if deleted.Err? {
        return FromUsecaseError(deleted.error, "Failed to delete book");
      }
      reply := Reply(StatusNoContent, ());
    }
  }
}
