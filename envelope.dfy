/** The uniform reply of every endpoint: `sendResponse(res, status, message, data)` writes
    `{ message, data }` with the status code; the model keeps the triple as a value. */
module Envelope {
  import opened Entities

  /** What a reply's `data` member can hold. */
  datatype Data =
    | Null
    | BookData(book: Book)
    | Listing(page: int, totalPages: nat, totalBooks: nat, books: seq<Book>)
    | Messages(messages: seq<string>)

  datatype Response = Response(status: int, message: string, data: Data)
}
