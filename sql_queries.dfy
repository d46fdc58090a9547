/**
 * What the statements of internal/repository/sql_queries.go do to the
 * `book` table, which is modelled as the sequence of its rows in storage
 * order. Neither the page query nor the `LIMIT 1` lookups by id and by
 * ISBN have an ORDER BY; the model assumes the database returns rows in
 * this one fixed order, so a lookup returns the first matching row.
 */
module SqlQueries {
  import opened Wrappers
  import opened Entity

  /** Some row has this book_id. */
  predicate HasId(rows: seq<Book>, id: Uuid)
  {
    exists i :: 0 <= i < |rows| && rows[i].bookId == id
  }

  /** book_id is a key of the table. */
  predicate UniqueIds(rows: seq<Book>)
  {
    forall i, j :: 0 <= i < j < |rows| ==> rows[i].bookId != rows[j].bookId
  }

  // ---------------------------------------------------------------------
  // bookGetById, bookGetByISBN: `SELECT * ... WHERE col = $1 LIMIT 1`

  /** The first row whose book_id is `id`, if any. */
  function SelectById(rows: seq<Book>, id: Uuid): (r: Option<Book>)
    ensures r.Some? <==> HasId(rows, id)
    ensures r.Some? ==> r.value.bookId == id && r.value in rows
  {
    if rows == [] then None
    else if rows[0].bookId == id then Some(rows[0])
    else SelectById(rows[1..], id)
  }

  /** The first row whose isbn is `isbn`, if any. */
  function SelectByIsbn(rows: seq<Book>, isbn: string): (r: Option<Book>)
    ensures r.Some? <==> exists i :: 0 <= i < |rows| && rows[i].isbn == isbn
    ensures r.Some? ==> r.value.isbn == isbn && r.value in rows
  {
    if rows == [] then None
    else if rows[0].isbn == isbn then Some(rows[0])
    else SelectByIsbn(rows[1..], isbn)
  }

  /** In a keyed table, the lookup by id finds the one row carrying that id. */
  lemma SelectByIdFindsKeyedRow(rows: seq<Book>, i: nat)
    requires UniqueIds(rows) && i < |rows|
    ensures SelectById(rows, rows[i].bookId) == Some(rows[i])
  {
  }

  /** When several rows share an ISBN, the lookup returns the first in storage order. */
  lemma {:induction false} SelectByIsbnFindsFirst(rows: seq<Book>, i: nat)
    requires i < |rows|
    requires forall j :: 0 <= j < i ==> rows[j].isbn != rows[i].isbn
    ensures SelectByIsbn(rows, rows[i].isbn) == Some(rows[i])
  {
    if i > 0 {
      assert rows[0].isbn != rows[i].isbn;
      SelectByIsbnFindsFirst(rows[1..], i - 1);
    }
  }

  // ---------------------------------------------------------------------
  // bookGetBooksMany: `SELECT * FROM book OFFSET $1 LIMIT $2`

  function Min(a: int, b: int): int { if a <= b then a else b }

  /** The rows that remain after skipping `offset`, cut to at most `limit`. */
  function SelectPage(rows: seq<Book>, offset: nat, limit: nat): (r: seq<Book>)
    ensures |r| <= limit
    ensures |r| == if offset >= |rows| then 0 else Min(limit, |rows| - offset)
    ensures forall k :: 0 <= k < |r| ==> r[k] == rows[offset + k]
  {
    if offset >= |rows| then [] else rows[offset..offset + Min(limit, |rows| - offset)]
  }

  /**
   * Two adjacent pages together are the page that spans both: paging on
   * from `offset + a` skips no row and repeats none.
   */
  lemma AdjacentPagesConcatenate(rows: seq<Book>, offset: nat, a: nat, b: nat)
    ensures SelectPage(rows, offset, a) + SelectPage(rows, offset + a, b)
            == SelectPage(rows, offset, a + b)
  {
  }

  /** A page that starts at 0 and is as long as the table is the whole table. */
  lemma WholeTableIsOnePage(rows: seq<Book>)
    ensures SelectPage(rows, 0, |rows|) == rows
  {
  }

  /** In a keyed table, adjacent pages share no book. */
  lemma AdjacentPagesAreDisjoint(rows: seq<Book>, offset: nat, a: nat, b: nat)
    requires UniqueIds(rows)
    ensures forall x, y :: x in SelectPage(rows, offset, a) && y in SelectPage(rows, offset + a, b)
                           ==> x.bookId != y.bookId
  {
  }

  // ---------------------------------------------------------------------
  // bookCreate: `INSERT INTO book(...) VALUES (...)`

  /** Inserting a row with a new id keeps book_id a key. */
  lemma InsertKeepsKey(rows: seq<Book>, row: Book)
    requires UniqueIds(rows) && !HasId(rows, row.bookId)
    ensures UniqueIds(rows + [row])
  {
  }

  /** A row inserted under a new id is what the lookup by that id returns. */
  lemma InsertThenSelectById(rows: seq<Book>, row: Book)
    requires UniqueIds(rows) && !HasId(rows, row.bookId)
    ensures SelectById(rows + [row], row.bookId) == Some(row)
  {
    InsertKeepsKey(rows, row);
    SelectByIdFindsKeyedRow(rows + [row], |rows|);
  }

  // ---------------------------------------------------------------------
  // bookUpdate: `UPDATE book SET col = COALESCE(NULLIF($n, sentinel), col), ...`

  /** SQL NULLIF: NULL when the value equals the sentinel. */
  function NullIf<T(==)>(value: T, sentinel: T): (r: Option<T>)
    ensures r.None? <==> value == sentinel
    ensures r.Some? ==> r.value == value
  {
    if value == sentinel then None else Some(value)
  }

  /** SQL COALESCE of two arguments. */
  function Coalesce<T>(first: Option<T>, second: T): (r: T)
    ensures first.Some? ==> r == first.value
    ensures first.None? ==> r == second
  {
    match first
    case Some(v) => v
    case None => second
  }

  /** The date that means "keep the stored date": `'0001-1-1'::date`. */
  const DateSentinel: Date := ZeroDate

  /** The stock that means "keep the stored stock". */
  const StockSentinel: Int64 := -1

  /**
   * The SET list of bookUpdate applied to the stored row `current` with the
   * parameters carried by `update`. book_id and the audit stamps are not in
   * the SET list.
   */
  function MergeUpdate(current: Book, update: Book): (r: Book)
    ensures r.bookId == current.bookId
    ensures r.createdAt == current.createdAt && r.updatedAt == current.updatedAt
    ensures update.isbn != "" ==> r.isbn == update.isbn
    ensures update.isbn == "" ==> r.isbn == current.isbn
    ensures update.title != "" ==> r.title == update.title
    ensures update.title == "" ==> r.title == current.title
    ensures update.author != "" ==> r.author == update.author
    ensures update.author == "" ==> r.author == current.author
    ensures update.publisher != "" ==> r.publisher == update.publisher
    ensures update.publisher == "" ==> r.publisher == current.publisher
    ensures update.publishedAt != DateSentinel ==> r.publishedAt == update.publishedAt
    ensures update.publishedAt == DateSentinel ==> r.publishedAt == current.publishedAt
    ensures update.stock != StockSentinel ==> r.stock == update.stock
    ensures update.stock == StockSentinel ==> r.stock == current.stock
  {
    current.(
      isbn := Coalesce(NullIf(update.isbn, ""), current.isbn),
      title := Coalesce(NullIf(update.title, ""), current.title),
      author := Coalesce(NullIf(update.author, ""), current.author),
      publisher := Coalesce(NullIf(update.publisher, ""), current.publisher),
      publishedAt := Coalesce(NullIf(update.publishedAt, DateSentinel), current.publishedAt),
      stock := Coalesce(NullIf(update.stock, StockSentinel), current.stock))
  }

  /** Every parameter of the update is its column's "keep" sentinel. */
  predicate AllSentinels(update: Book)
  {
    && update.isbn == "" && update.title == "" && update.author == ""
    && update.publisher == "" && update.publishedAt == DateSentinel
    && update.stock == StockSentinel
  }

  /** An update whose every parameter is a sentinel leaves the row as it was. */
  lemma AllSentinelUpdateIsNoOp(current: Book, update: Book)
    requires AllSentinels(update)
    ensures MergeUpdate(current, update) == current
  {
  }

  /** Applying the same update twice gives the row that applying it once gives. */
  lemma MergeIsIdempotent(current: Book, update: Book)
    ensures MergeUpdate(MergeUpdate(current, update), update) == MergeUpdate(current, update)
  {
  }

  /** `WHERE book_id = $1`: the merge applied to the matching rows, every other row untouched. */
  function UpdateWhere(rows: seq<Book>, id: Uuid, update: Book): (r: seq<Book>)
    ensures |r| == |rows|
    ensures forall i :: 0 <= i < |rows| && rows[i].bookId == id ==> r[i] == MergeUpdate(rows[i], update)
    ensures forall i :: 0 <= i < |rows| && rows[i].bookId != id ==> r[i] == rows[i]
  {
    if rows == [] then []
    else
      var head := if rows[0].bookId == id then MergeUpdate(rows[0], update) else rows[0];
      [head] + UpdateWhere(rows[1..], id, update)
  }

  /** The update changes no book_id, so the table stays keyed and every id stays present. */
  lemma UpdateWhereKeepsIds(rows: seq<Book>, id: Uuid, update: Book)
    ensures forall i :: 0 <= i < |rows| ==> UpdateWhere(rows, id, update)[i].bookId == rows[i].bookId
    ensures UniqueIds(rows) ==> UniqueIds(UpdateWhere(rows, id, update))
    ensures forall x :: HasId(UpdateWhere(rows, id, update), x) <==> HasId(rows, x)
  {
  }

  /** After an update of a stored id, the lookup by that id returns the merged row. */
  lemma UpdateThenSelectById(rows: seq<Book>, id: Uuid, update: Book)
    requires UniqueIds(rows) && HasId(rows, id)
    ensures SelectById(UpdateWhere(rows, id, update), id)
            == Some(MergeUpdate(SelectById(rows, id).value, update))
  {
    var i :| 0 <= i < |rows| && rows[i].bookId == id;
    SelectByIdFindsKeyedRow(rows, i);
    UpdateWhereKeepsIds(rows, id, update);
    SelectByIdFindsKeyedRow(UpdateWhere(rows, id, update), i);
  }

  // ---------------------------------------------------------------------
  // bookDelete: `DELETE FROM book WHERE book_id = $1`

  /** The table without the rows whose book_id is `id`. */
  function DeleteWhere(rows: seq<Book>, id: Uuid): (r: seq<Book>)
    ensures forall b :: b in r <==> b in rows && b.bookId != id
    ensures !HasId(r, id)
    ensures |r| <= |rows|
    ensures |r| == |rows| <==> !HasId(rows, id)
    ensures !HasId(rows, id) ==> r == rows
  {
    if rows == [] then []
    else if rows[0].bookId == id then DeleteWhere(rows[1..], id)
    else
      assert HasId(rows, id) <==> HasId(rows[1..], id) by {
        if HasId(rows, id) {
          var i :| 0 <= i < |rows| && rows[i].bookId == id;
          assert rows[1..][i - 1] == rows[i];
        }
      }
      [rows[0]] + DeleteWhere(rows[1..], id)
  }

  /** Removing rows keeps book_id a key. */
  lemma {:induction false} DeleteWhereKeepsKey(rows: seq<Book>, id: Uuid)
    requires UniqueIds(rows)
    ensures UniqueIds(DeleteWhere(rows, id))
  {
    if rows != [] {
      var tail := rows[1..];
      assert UniqueIds(tail) by {
        forall a, b | 0 <= a < b < |tail| ensures tail[a].bookId != tail[b].bookId {
          assert tail[a] == rows[a + 1] && tail[b] == rows[b + 1];
        }
      }
      DeleteWhereKeepsKey(tail, id);
      if rows[0].bookId != id {
        var rest := DeleteWhere(tail, id);
        var r := [rows[0]] + rest;
        forall a, b | 0 <= a < b < |r| ensures r[a].bookId != r[b].bookId {
          if a == 0 {
            assert r[b] == rest[b - 1] && rest[b - 1] in tail;
            var k :| 0 <= k < |tail| && tail[k] == rest[b - 1];
            assert tail[k] == rows[k + 1];
          } else {
            assert r[a] == rest[a - 1] && r[b] == rest[b - 1];
          }
        }
      }
    }
  }

  /** Deleting keeps the table keyed and removes no other id. */
  lemma DeleteWhereKeepsOthers(rows: seq<Book>, id: Uuid, other: Uuid)
    requires other != id
    ensures HasId(DeleteWhere(rows, id), other) <==> HasId(rows, other)
  {
  }

  /** A second delete of the same id matches no row and changes nothing. */
  lemma DeleteTwiceMatchesNothing(rows: seq<Book>, id: Uuid)
    ensures DeleteWhere(DeleteWhere(rows, id), id) == DeleteWhere(rows, id)
  {
  }
}
