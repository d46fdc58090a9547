/**
 * BookUsecase (internal/usecase/book_usecase.go): checks its input before
 * it touches the repository, and turns repository outcomes into errors
 * that carry an HTTP status and a message.
 *
 * Three collaborators stay abstract: the validator's `isbn` check and
 * `uuid.Parse` are function-valued fields, and the outcome of
 * `uuid.NewV7` is a parameter of Create (None when generation fails).
 */
module Usecase {
  import opened Wrappers
  import opened Entity
  import opened Model
  import Sql = SqlQueries
  import opened Repository

  const StatusOK: int := 200
  const StatusCreated: int := 201
  const StatusNoContent: int := 204
  const StatusBadRequest: int := 400
  const StatusNotFound: int := 404
  const StatusInternalServerError: int := 500

  /**
   * An error returned by a use case: a fiber error (code and message), or,
   * only when id generation fails, a plain error that carries no status.
   */
  datatype AppError = HttpError(code: int, message: string) | Internal(message: string)

  /** One page of the list use case: the responses and the row count of the table. */
  datatype BookPage = BookPage(books: seq<BookResponse>, total: nat)

  /** The entity the use cases build from request fields; the audit stamps stay at their zero value. */
  function RequestToBook(id: Uuid, req: CreateBookRequest): Book
  {
    Book(id, req.isbn, req.title, req.author, req.publisher, req.publishedAt, req.stock, 0, 0)
  }

  /** The responses for a sequence of rows, one per row and in the same order. */
  function ProjectAll(books: seq<Book>): (r: seq<BookResponse>)
    ensures |r| == |books|
    ensures forall k :: 0 <= k < |books| ==> r[k] == BookToResponse(books[k])
  {
    if books == [] then [] else [BookToResponse(books[0])] + ProjectAll(books[1..])
  }

  /**
   * Through the Update use case, an update overwrites every text field and
   * the date: validation refuses their sentinels, so only the stock can be
   * kept, by sending -1.
   */
  lemma AcceptedUpdateOverwritesAllButStock(isbnRule: string -> bool, req: UpdateBookRequest, current: Book)
    requires UpdateAccepted(isbnRule, req)
    ensures Sql.MergeUpdate(current, RequestToBook(req.bookId, req.fields))
            == current.(isbn := req.fields.isbn, title := req.fields.title,
                         author := req.fields.author, publisher := req.fields.publisher,
                         publishedAt := req.fields.publishedAt,
                         stock := if req.fields.stock == -1 then current.stock else req.fields.stock)
  {
  }

  class BookUsecase {
    const repo: BookRepository
    /** The validator's `isbn` check. */
    const isbnRule: string -> bool
    /** `uuid.Parse`: the UUID a text denotes, None when it is not one. */
    const parseUuid: string -> Option<Uuid>

    constructor (repo: BookRepository, isbnRule: string -> bool, parseUuid: string -> Option<Uuid>)
      ensures this.repo == repo && this.isbnRule == isbnRule && this.parseUuid == parseUuid
    {
      this.repo := repo;
      this.isbnRule := isbnRule;
      this.parseUuid := parseUuid;
    }

    /**
     * `Create`: validates, then generates the id, then inserts. On success
     * the response echoes the request under the generated id.
     */
    method Create(req: CreateBookRequest, newId: Option<Uuid>, dbFault: bool,
                  createdAt: Timestamp, updatedAt: Timestamp)
      returns (r: Result<BookResponse, AppError>)
      requires repo.Valid()
      modifies repo
      ensures repo.Valid()
      ensures !CreateAccepted(isbnRule, req) ==>
                r == Err(HttpError(StatusBadRequest, "Invalid request payload")) && unchanged(repo)
      ensures CreateAccepted(isbnRule, req) && newId.None? ==>
                r == Err(Internal("Failed to generate book ID")) && unchanged(repo)
      ensures CreateAccepted(isbnRule, req) && newId.Some? ==>
                && repo.issued == old(repo.issued) + [BookCreate(RequestToBook(newId.value, req))]
                && (r.Err? <==> dbFault || Sql.HasId(old(repo.rows), newId.value))
                && (r.Err? ==> r.error == HttpError(StatusInternalServerError, "Failed to create book")
                               && repo.rows == old(repo.rows))
                && (r.Ok? ==> repo.rows == old(repo.rows)
                                + [RequestToBook(newId.value, req).(createdAt := createdAt, updatedAt := updatedAt)])
      ensures r.Ok? ==> newId.Some? && r.value == BookResponse(newId.value, req.isbn, req.title,
                          req.author, req.publisher, req.publishedAt, req.stock)
    {
      if !CreateAccepted(isbnRule, req) {
        return Err(HttpError(StatusBadRequest, "Invalid request payload"));
      }
      if newId.None? {
        return Err(Internal("Failed to generate book ID"));
      }
      var book := RequestToBook(newId.value, req);
      var stored := repo.Create(book, dbFault, createdAt, updatedAt);
      if stored.Err? {
        return Err(HttpError(StatusInternalServerError, "Failed to create book"));
      }
      r := Ok(BookToResponse(stored.value));
    }

    /** `GetById`: an unparseable id is refused before the repository is asked. */
    method GetById(idText: string, dbFault: bool) returns (r: Result<BookResponse, AppError>)
      requires repo.Valid()
      modifies repo
      ensures repo.Valid() && repo.rows == old(repo.rows)
      ensures parseUuid(idText).None? ==>
                r == Err(HttpError(StatusBadRequest, "Invalid book ID")) && unchanged(repo)
      ensures parseUuid(idText).Some? ==>
                var id := parseUuid(idText).value;
                && repo.issued == old(repo.issued) + [BookGetById(id)]
                && (dbFault ==> r == Err(HttpError(StatusInternalServerError, "Failed to get book")))
                && (!dbFault && !Sql.HasId(repo.rows, id) ==> r == Err(HttpError(StatusNotFound, "Book not found")))
                && (!dbFault && Sql.HasId(repo.rows, id) ==> r == Ok(BookToResponse(Sql.SelectById(repo.rows, id).value)))
    {
      var id := parseUuid(idText);
      if id.None? {
        return Err(HttpError(StatusBadRequest, "Invalid book ID"));
      }
      var book := repo.GetById(id.value, dbFault);
      if book.Err? {
        if book.error == ErrNoRows {
          return Err(HttpError(StatusNotFound, "Book not found"));
        }
        return Err(HttpError(StatusInternalServerError, "Failed to get book"));
      }
      r := Ok(BookToResponse(book.value));
    }

    /** `GetByISBN`: an ISBN the `isbn` check refuses is refused before the repository is asked. */
    method GetByIsbn(isbn: string, dbFault: bool) returns (r: Result<BookResponse, AppError>)
      requires repo.Valid()
      modifies repo
      ensures repo.Valid() && repo.rows == old(repo.rows)
      ensures !isbnRule(isbn) ==>
                r == Err(HttpError(StatusBadRequest, "Invalid ISBN format")) && unchanged(repo)
      ensures isbnRule(isbn) ==>
                && repo.issued == old(repo.issued) + [BookGetByIsbn(isbn)]
                && (dbFault ==> r == Err(HttpError(StatusInternalServerError, "Failed to get book")))
                && (!dbFault && Sql.SelectByIsbn(repo.rows, isbn).None? ==>
                      r == Err(HttpError(StatusNotFound, "Book not found")))
                && (!dbFault && Sql.SelectByIsbn(repo.rows, isbn).Some? ==>
                      r == Ok(BookToResponse(Sql.SelectByIsbn(repo.rows, isbn).value)))
    {
      if !isbnRule(isbn) {
        return Err(HttpError(StatusBadRequest, "Invalid ISBN format"));
      }
      var book := repo.GetByIsbn(isbn, dbFault);
      if book.Err? {
        if book.error == ErrNoRows {
          return Err(HttpError(StatusNotFound, "Book not found"));
        }
        return Err(HttpError(StatusInternalServerError, "Failed to get book"));
      }
      r := Ok(BookToResponse(book.value));
    }

    /**
     * `GetMany`: a page of responses and the table's row count. The limit
     * is checked first; the count is asked for only after the page was
     * fetched, and its failure discards the page.
     */
    method GetMany(offset: Int64, limit: Int64, pageFault: bool, countFault: bool)
      returns (r: Result<BookPage, AppError>)
      requires repo.Valid()
      modifies repo
      ensures repo.Valid() && repo.rows == old(repo.rows)
      ensures limit <= 0 ==>
                r == Err(HttpError(StatusBadRequest, "Limit must be greater than 0")) && unchanged(repo)
      ensures limit > 0 && (pageFault || offset < 0) ==>
                && r == Err(HttpError(StatusInternalServerError, "Failed to get books"))
                && repo.issued == old(repo.issued) + [BookGetBooksMany(offset, limit)]
      ensures limit > 0 && !pageFault && offset >= 0 ==>
                repo.issued == old(repo.issued) + [BookGetBooksMany(offset, limit), BookGetTotalCount]
      ensures limit > 0 && !pageFault && offset >= 0 && countFault ==>
                r == Err(HttpError(StatusInternalServerError, "Failed to get total count"))
      ensures limit > 0 && !pageFault && offset >= 0 && !countFault ==>
                r == Ok(BookPage(ProjectAll(Sql.SelectPage(repo.rows, offset, limit)), |repo.rows|))
    {
      if limit <= 0 {
        return Err(HttpError(StatusBadRequest, "Limit must be greater than 0"));
      }
      var books := repo.GetMany(offset, limit, pageFault);
      if books.Err? {
        if books.error == ErrNoRows {
          // The repository reports an empty page as a success, never as ErrNoRows.
          assert false;
        }
        return Err(HttpError(StatusInternalServerError, "Failed to get books"));
      }
      var total := repo.GetTotalCount(countFault);
      if total.Err? {
        return Err(HttpError(StatusInternalServerError, "Failed to get total count"));
      }
      var page := books.value;
      var booksResp := new BookResponse[|page|];
      for i := 0 to |page|
        modifies booksResp
        invariant forall k :: 0 <= k < i ==> booksResp[k] == BookToResponse(page[k])
      {
        booksResp[i] := BookToResponse(page[i]);
      }
      assert booksResp[..] == ProjectAll(page);
      r := Ok(BookPage(booksResp[..], total.value));
    }

    /**
     * `Update`: validates, then hands every request field to the repository
     * as it came, sentinels included, keyed by the request's book id.
     */
    method Update(req: UpdateBookRequest, dbFault: bool) returns (r: Result<BookResponse, AppError>)
      requires repo.Valid()
      modifies repo
      ensures repo.Valid()
      ensures !UpdateAccepted(isbnRule, req) ==>
                r == Err(HttpError(StatusBadRequest, "Invalid request payload")) && unchanged(repo)
      ensures UpdateAccepted(isbnRule, req) ==>
                var book := RequestToBook(req.bookId, req.fields);
                && repo.issued == old(repo.issued) + [BookUpdate(book)]
                && (dbFault ==> r == Err(HttpError(StatusInternalServerError, "Failed to update book"))
                                && repo.rows == old(repo.rows))
                && (!dbFault && !Sql.HasId(old(repo.rows), req.bookId) ==>
                      r == Err(HttpError(StatusNotFound, "Book not found")) && repo.rows == old(repo.rows))
                && (!dbFault && Sql.HasId(old(repo.rows), req.bookId) ==>
                      && r == Ok(BookToResponse(Sql.MergeUpdate(Sql.SelectById(old(repo.rows), req.bookId).value, book)))
                      && repo.rows == Sql.UpdateWhere(old(repo.rows), req.bookId, book))
    {
      if !UpdateAccepted(isbnRule, req) {
        return Err(HttpError(StatusBadRequest, "Invalid request payload"));
      }
      var book := RequestToBook(req.bookId, req.fields);
      var updated := repo.Update(book, dbFault);
      if updated.Err? {
        if updated.error == ErrNoRows {
          return Err(HttpError(StatusNotFound, "Book not found"));
        }
        return Err(HttpError(StatusInternalServerError, "Failed to update book"));
      }
      r := Ok(BookToResponse(updated.value));
    }

    /** `Delete`: an unparseable id is refused before the repository is asked. */
    method Delete(idText: string, dbFault: bool) returns (r: Result<(), AppError>)
      requires repo.Valid()
      modifies repo
      ensures repo.Valid()
      ensures parseUuid(idText).None? ==>
                r == Err(HttpError(StatusBadRequest, "Invalid book ID")) && unchanged(repo)
      ensures parseUuid(idText).Some? ==>
                var id := parseUuid(idText).value;
                && repo.issued == old(repo.issued) + [BookDelete(id)]
                && (dbFault ==> r == Err(HttpError(StatusInternalServerError, "Failed to delete book"))
                                && repo.rows == old(repo.rows))
                && (!dbFault ==> repo.rows == Sql.DeleteWhere(old(repo.rows), id) && !Sql.HasId(repo.rows, id))
                && (!dbFault && !Sql.HasId(old(repo.rows), id) ==> r == Err(HttpError(StatusNotFound, "Book not found")))
                && (!dbFault && Sql.HasId(old(repo.rows), id) ==> r == Ok(()))
    {
      var id := parseUuid(idText);
      if id.None? {
        return Err(HttpError(StatusBadRequest, "Invalid book ID"));
      }
      var deleted := repo.Delete(id.value, dbFault);
      if deleted.Err? {
        if deleted.error == ErrNoRows {
          return Err(HttpError(StatusNotFound, "Book not found"));
        }
        return Err(HttpError(StatusInternalServerError, "Failed to delete book"));
      }
      r := Ok(());
    }
  }
}
