/**
 * The `book` row and the two storage error values
 * (internal/entity/book_entity.go, internal/types/errors.go).
 */
module Entity {

  const MinInt64: int := -0x8000_0000_0000_0000
  const MaxInt64: int := 0x7fff_ffff_ffff_ffff

  /** Go's int64. */
  type Int64 = x: int | MinInt64 <= x <= MaxInt64

  /** A 128-bit UUID read as an unsigned number. */
  type Uuid = x: int | 0 <= x < 0x1_0000_0000_0000_0000_0000_0000_0000_0000

  /** The all-zero UUID: the zero value of Go's uuid.UUID. */
  const NilUuid: Uuid := 0

  /** A calendar date. */
  datatype Date = Date(year: int, month: int, day: int)

  /**
   * 0001-01-01: the zero value of Go's time.Time, and the date that the
   * UPDATE statement reads as "keep the stored date".
   */
  const ZeroDate: Date := Date(1, 1, 1)

  /** An audit instant; no statement of the core computes one. */
  type Timestamp = int

  datatype Book = Book(
    bookId: Uuid,
    isbn: string,
    title: string,
    author: string,
    publisher: string,
    publishedAt: Date,
    stock: Int64,
    createdAt: Timestamp,
    updatedAt: Timestamp)

  /** `types.ErrDatabaseQuery` and `types.ErrNoRows`. */
  datatype DbError = ErrDatabaseQuery | ErrNoRows
}
