/**
 * BookRepository (internal/repository/book_repository.go): one method per
 * statement, run against the table it holds, with the database's "zero
 * rows" outcome reported as ErrNoRows and every other failure as
 * ErrDatabaseQuery.
 *
 * A failure that does not depend on the table (a lost connection, a
 * cancelled context) is not something the model can compute: each method
 * takes it as the flag `dbFault`.
 */
module Repository {
  import opened Wrappers
  import opened Entity
  import Sql = SqlQueries

  /**
   * A statement sent to the database, named after the constant the
   * repository passes for it (sql_queries.go defines all but bookGetTotalCount).
   */
  datatype Query =
    | BookCreate(row: Book)
    | BookGetById(id: Uuid)
    | BookGetByIsbn(isbn: string)
    | BookGetBooksMany(offset: Int64, limit: Int64)
    | BookUpdate(row: Book)
    | BookDelete(id: Uuid)
    | BookGetTotalCount

  class BookRepository {
    /** The `book` table in storage order. */
    var rows: seq<Book>
    /** Every statement this repository has sent, oldest first. */
    ghost var issued: seq<Query>

    /** book_id is the table's key. */
    ghost predicate Valid()
      reads this
    {
      Sql.UniqueIds(rows)
    }

    constructor (initial: seq<Book>)
      requires Sql.UniqueIds(initial)
      ensures Valid() && rows == initial && issued == []
    {
      rows := initial;
      issued := [];
    }

    /**
     * `Create`: inserts the row and returns it as stored. The INSERT names
     * neither created_at nor updated_at, so the database fills them in; the
     * two values it uses are parameters here. A second row with the same
     * book_id violates the key and fails like any other query error.
     */
    method Create(book: Book, dbFault: bool, createdAt: Timestamp, updatedAt: Timestamp)
      returns (r: Result<Book, DbError>)
      requires Valid()
      modifies this
      ensures Valid() && issued == old(issued) + [BookCreate(book)]
      ensures r.Err? <==> dbFault || Sql.HasId(old(rows), book.bookId)
      ensures r.Err? ==> r.error == ErrDatabaseQuery && rows == old(rows)
      ensures r.Ok? ==> r.value == book.(createdAt := createdAt, updatedAt := updatedAt)
      ensures r.Ok? ==> rows == old(rows) + [r.value]
      ensures r.Ok? ==> Sql.SelectById(rows, book.bookId) == Some(r.value)
    {
      issued := issued + [BookCreate(book)];
      if dbFault || Sql.SelectById(rows, book.bookId).Some? {
        r := Err(ErrDatabaseQuery);
      } else {
        var stored := book.(createdAt := createdAt, updatedAt := updatedAt);
        Sql.InsertThenSelectById(rows, stored);
        Sql.InsertKeepsKey(rows, stored);
        rows := rows + [stored];
        r := Ok(stored);
      }
    }

    /** `GetById`: the row with this id, ErrNoRows when there is none. */
    method GetById(id: Uuid, dbFault: bool) returns (r: Result<Book, DbError>)
      requires Valid()
      modifies this
      ensures Valid() && rows == old(rows) && issued == old(issued) + [BookGetById(id)]
      ensures dbFault ==> r == Err(ErrDatabaseQuery)
      ensures !dbFault && !Sql.HasId(rows, id) ==> r == Err(ErrNoRows)
      ensures !dbFault && Sql.HasId(rows, id) ==> r == Ok(Sql.SelectById(rows, id).value)
      ensures r.Ok? ==> r.value.bookId == id && r.value in rows
    {
      issued := issued + [BookGetById(id)];
      if dbFault {
        r := Err(ErrDatabaseQuery);
      } else {
        var found := Sql.SelectById(rows, id);
        r := if found.Some? then Ok(found.value) else Err(ErrNoRows);
      }
    }

    /** `GetByISBN`: the first row with this ISBN, ErrNoRows when there is none. */
    method GetByIsbn(isbn: string, dbFault: bool) returns (r: Result<Book, DbError>)
      requires Valid()
      modifies this
      ensures Valid() && rows == old(rows) && issued == old(issued) + [BookGetByIsbn(isbn)]
      ensures dbFault ==> r == Err(ErrDatabaseQuery)
      ensures !dbFault && Sql.SelectByIsbn(rows, isbn).None? ==> r == Err(ErrNoRows)
      ensures !dbFault && Sql.SelectByIsbn(rows, isbn).Some? ==> r == Ok(Sql.SelectByIsbn(rows, isbn).value)
      ensures r.Ok? ==> r.value.isbn == isbn && r.value in rows
    {
      issued := issued + [BookGetByIsbn(isbn)];
      if dbFault {
        r := Err(ErrDatabaseQuery);
      } else {
        var found := Sql.SelectByIsbn(rows, isbn);
        r := if found.Some? then Ok(found.value) else Err(ErrNoRows);
      }
    }

    /**
     * `GetMany`: the rows of one page. An empty page is a success, so the
     * only failure is ErrDatabaseQuery; the database refuses a negative
     * OFFSET or LIMIT.
     */
    method GetMany(offset: Int64, limit: Int64, dbFault: bool) returns (r: Result<seq<Book>, DbError>)
      requires Valid()
      modifies this
      ensures Valid() && rows == old(rows) && issued == old(issued) + [BookGetBooksMany(offset, limit)]
      ensures r.Err? <==> dbFault || offset < 0 || limit < 0
      ensures r.Err? ==> r.error == ErrDatabaseQuery
      ensures r.Ok? ==> r.value == Sql.SelectPage(rows, offset, limit) && |r.value| <= limit
    {
      issued := issued + [BookGetBooksMany(offset, limit)];
      if dbFault || offset < 0 || limit < 0 {
        r := Err(ErrDatabaseQuery);
      } else {
        r := Ok(Sql.SelectPage(rows, offset, limit));
      }
    }

    /**
     * `Update`: merges the parameters into the row with book.bookId and
     * returns the row as stored; ErrNoRows, with the table untouched, when
     * no row has that id.
     */
    method Update(book: Book, dbFault: bool) returns (r: Result<Book, DbError>)
      requires Valid()
      modifies this
      ensures Valid() && issued == old(issued) + [BookUpdate(book)]
      ensures dbFault ==> r == Err(ErrDatabaseQuery) && rows == old(rows)
      ensures !dbFault && !Sql.HasId(old(rows), book.bookId) ==> r == Err(ErrNoRows) && rows == old(rows)
      ensures !dbFault && Sql.HasId(old(rows), book.bookId) ==>
                && r == Ok(Sql.MergeUpdate(Sql.SelectById(old(rows), book.bookId).value, book))
                && rows == Sql.UpdateWhere(old(rows), book.bookId, book)
      ensures r.Ok? ==> r.value.bookId == book.bookId && Sql.SelectById(rows, book.bookId) == Some(r.value)
    {
      issued := issued + [BookUpdate(book)];
      if dbFault {
        r := Err(ErrDatabaseQuery);
      } else {
        var current := Sql.SelectById(rows, book.bookId);
        if current.None? {
          r := Err(ErrNoRows);
        } else {
          Sql.UpdateThenSelectById(rows, book.bookId, book);
          Sql.UpdateWhereKeepsIds(rows, book.bookId, book);
          rows := Sql.UpdateWhere(rows, book.bookId, book);
          r := Ok(Sql.MergeUpdate(current.value, book));
        }
      }
    }

    /**
     * `Delete`: removes the row with this id; ErrNoRows when no row was
     * affected. Afterwards no row has the id.
     */
    method Delete(id: Uuid, dbFault: bool) returns (r: Result<(), DbError>)
      requires Valid()
      modifies this
      ensures Valid() && issued == old(issued) + [BookDelete(id)]
      ensures dbFault ==> r == Err(ErrDatabaseQuery) && rows == old(rows)
      ensures !dbFault ==> rows == Sql.DeleteWhere(old(rows), id) && !Sql.HasId(rows, id)
      ensures !dbFault ==> (r == Err(ErrNoRows) <==> !Sql.HasId(old(rows), id))
      ensures !dbFault ==> (r == Ok(()) <==> Sql.HasId(old(rows), id))
    {
      issued := issued + [BookDelete(id)];
      if dbFault {
        r := Err(ErrDatabaseQuery);
      } else {
        var before := |rows|;
        Sql.DeleteWhereKeepsKey(rows, id);
        rows := Sql.DeleteWhere(rows, id);
        var affected := before - |rows|;
        r := if affected <= 0 then Err(ErrNoRows) else Ok(());
      }
    }

    /**
     * `GetTotalCount`: sends `bookGetTotalCount`, a constant sql_queries.go
     * does not define; modelled as the row count its doc comment promises.
     */
    method GetTotalCount(dbFault: bool) returns (r: Result<nat, DbError>)
      requires Valid()
      modifies this
      ensures Valid() && rows == old(rows) && issued == old(issued) + [BookGetTotalCount]
      ensures dbFault ==> r == Err(ErrDatabaseQuery)
      ensures !dbFault ==> r == Ok(|rows|)
    {
      issued := issued + [BookGetTotalCount];
      r := if dbFault then Err(ErrDatabaseQuery) else Ok(|rows|);
    }
  }
}
