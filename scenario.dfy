/**
 * A client of the handlers: create the book "Hujan" in an empty table, then
 * fetch it by its ISBN. The fetch answers 200 with exactly the body the
 * create answered 201 with.
 */
module Scenario {
  import opened Wrappers
  import opened Entity
  import opened Model
  import opened Usecase
  import opened Controller

  method CreateThenGetByIsbn(ctrl: BookController, id: Uuid, createdAt: Timestamp, updatedAt: Timestamp)
    returns (created: Reply<BookResponse>, fetched: Reply<BookResponse>)
    requires ctrl.usecase.repo.Valid() && ctrl.usecase.repo.rows == []
    requires ctrl.usecase.isbnRule("9783161484100")
    modifies ctrl.usecase.repo
    ensures created == Reply(StatusCreated, BookResponse(id, "9783161484100", "Hujan", "Tere Liye",
                                                         "Gramedia", Date(2016, 1, 28), 200))
    ensures fetched == Reply(StatusOK, created.body)
  {
    var request := CreateBookRequest("9783161484100", "Hujan", "Tere Liye", "Gramedia", Date(2016, 1, 28), 200);
    created := ctrl.BookCreate(Some(request), Some(id), false, createdAt, updatedAt);
    fetched := ctrl.GetBookByIsbn("9783161484100", false);
  }
}
