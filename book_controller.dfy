/** `BookController`: turns a request's parameters into a repository call and the
    repository's outcome into a reply. A repository call that throws (the database is
    unreachable, say) is the parameter `fault`; such a call has no effect on the table. */
module Controller {
  import opened Wrappers
  import opened Entities
  import opened Repository
  import opened Envelope
  import Text

  const CreatedMessage := "Data Book Created Successfully"
  const FetchedMessage := "Data Book Fetched Successfully"
  const NotFoundMessage := "Data not found"
  const UpdatedMessage := "Data book updated successfully"
  const DeletedMessage := "Book deleted successfully"
  const ServerErrorMessage := "Internal Server Error"

  /** The catch-all reply: a generic message and no payload. */
  function ServerError(): Response
  {
    Response(500, ServerErrorMessage, Null)
  }

  function NotFoundReply(): Response
  {
    Response(404, NotFoundMessage, Null)
  }

  /** `createBook`'s reply to the repository's outcome; a refused INSERT is a thrown error. */
  function CreateReply(r: SaveResult): Response
  {
    if r.Saved? then Response(201, CreatedMessage, BookData(r.book)) else ServerError()
  }

  /** `getBookById`'s reply: `null` from the repository is "not found". */
  function FindReply(r: Option<Book>): Response
  {
    if r.Some? then Response(200, FetchedMessage, BookData(r.value)) else NotFoundReply()
  }

  /** `updateBook`'s reply: `null` is "not found", a refused UPDATE is a thrown error. */
  function UpdateReply(r: SaveResult): Response
  {
    match r
    case Saved(b) => Response(201, UpdatedMessage, BookData(b))
    case NotFound => NotFoundReply()
    case Rejected => ServerError()
  }

  /** `deleteBook`'s reply: `false` is "not found". */
  function DeleteReply(removed: bool): Response
  {
    if removed then Response(201, DeletedMessage, Null) else NotFoundReply()
  }

  /** Every failure reply carries no payload, so no internal detail reaches the caller;
      every success carries the affected book, except a delete, which carries nothing. */
  lemma FailuresCarryNoData(r: SaveResult, found: Option<Book>, removed: bool)
    ensures CreateReply(r).status == 201 <==> r.Saved?
    ensures UpdateReply(r).status == 201 <==> r.Saved?
    ensures FindReply(found).status == 200 <==> found.Some?
    ensures DeleteReply(removed).status == 201 <==> removed
    ensures CreateReply(r).status != 201 ==> CreateReply(r).data == Null
    ensures UpdateReply(r).status != 201 ==> UpdateReply(r).data == Null
    ensures FindReply(found).status != 200 ==> FindReply(found).data == Null
    ensures DeleteReply(removed).data == Null
  {
  }

  /** The query string of `GET /books`; an absent parameter is `None`. */
  datatype ListQuery = ListQuery(search: Option<string>, page: Option<string>, limit: Option<string>)

  /** `parseInt(raw, 10) || fallback`: NaN and 0 are falsy and give way to the fallback. */
  function NumberOr(raw: Option<string>, fallback: int): (n: int)
    ensures fallback != 0 ==> n != 0
    ensures n == fallback || (raw.Some? && Text.ParseDecimal(raw.value) == Some(n))
    ensures raw.Some? && Text.ParseDecimal(raw.value).Some? && Text.ParseDecimal(raw.value).value != 0 ==>
      n == Text.ParseDecimal(raw.value).value
    ensures raw.None? || Text.ParseDecimal(raw.value).None? || Text.ParseDecimal(raw.value) == Some(0) ==>
      n == fallback
  {
    if raw.None? then fallback
    else match Text.ParseDecimal(raw.value)
      case None => fallback
      case Some(v) => if v == 0 then fallback else v
  }

  /** A query parameter written as a decimal number is read back as that number, unless it is 0. */
  lemma NumberOrDecimal(n: int, rest: string, fallback: int)
    requires rest == [] || !Text.IsDigit(rest[0])
    ensures NumberOr(Some(Text.Decimal(n) + rest), fallback) == if n == 0 then fallback else n
    ensures NumberOr(None, fallback) == fallback
  {
    Text.ParseDecimalRoundTrip(n, rest);
  }

  /** `Math.ceil(totalBooks / limit)`: the fewest pages of `limit` rows that hold every row. */
  function TotalPages(totalBooks: nat, limit: int): (pages: nat)
    requires limit > 0
    ensures pages * limit >= totalBooks
    ensures pages == 0 || (pages - 1) * limit < totalBooks
  {
    var q := (totalBooks + limit - 1) / limit;
    assert q * limit <= totalBooks + limit - 1 < (q + 1) * limit;
    q
  }

  /** The pages `1..count`, in order, laid end to end. */
  function Pages(m: seq<Book>, limit: int, count: nat): seq<Book>
    requires limit > 0
  {
    if count == 0 then [] else Pages(m, limit, count - 1) + Window(m, count, limit)
  }

  lemma {:induction false} PagesPrefix(m: seq<Book>, limit: int, count: nat)
    requires limit > 0
    ensures Pages(m, limit, count) == m[..if count * limit <= |m| then count * limit else |m|]
  {
    if count > 0 {
      PagesPrefix(m, limit, count - 1);
      var lo := (count - 1) * limit;
      var hi := count * limit;
      assert hi == lo + limit;
      if lo < |m| {
        assert m[..lo] + m[lo..if hi <= |m| then hi else |m|] == m[..if hi <= |m| then hi else |m|];
      }
    }
  }

  /** Pages 1 to `totalPages` hold every selected row exactly once and in order, and none
      of them is empty: paging loses and repeats nothing. */
  lemma PagesCoverAll(m: seq<Book>, limit: int)
    requires limit > 0
    ensures Pages(m, limit, TotalPages(|m|, limit)) == m
    ensures forall page :: 1 <= page <= TotalPages(|m|, limit) ==> Window(m, page, limit) != []
  {
    PagesPrefix(m, limit, TotalPages(|m|, limit));
    forall page | 1 <= page <= TotalPages(|m|, limit)
      ensures Window(m, page, limit) != []
    {
      var pages := TotalPages(|m|, limit);
      MultiplyMonotone(page - 1, pages - 1, limit);
      assert (page - 1) * limit < |m|;
      WindowSlice(m, page, limit);
    }
  }

  lemma MultiplyMonotone(a: int, b: int, c: int)
    requires 0 <= a <= b && c > 0
    ensures a * c <= b * c
  {
  }

  /** Worked examples of the ceiling division in `getBooks`: no matching book gives no page,
      one book at the default ten a page gives one page, and 23 books at ten a page give
      three pages, the last holding three books. */
  lemma PagingExamples(m: seq<Book>)
    requires |m| == 23
    ensures TotalPages(0, 10) == 0 && TotalPages(1, 10) == 1 && TotalPages(23, 10) == 3
    ensures |Window(m, 3, 10)| == 3
  {
    WindowSlice(m, 3, 10);
  }

  class BookController {
    const repo: BookRepository

    constructor ()
      ensures fresh(repo) && repo.Valid() && repo.rows == [] && repo.nextId == 1
    {
      repo := new BookRepository();
    }

    /** `createBook`: store the five body fields; 201 with the stored book, or 500. */
    method CreateBook(body: BookDraft, fault: bool) returns (resp: Response)
      requires repo.Valid()
      modifies repo
      ensures repo.Valid()
      ensures fault || !Storable(body) ==>
        resp == ServerError() && repo.rows == old(repo.rows) && repo.nextId == old(repo.nextId)
      ensures !fault && Storable(body) ==>
        var b := Row(old(repo.nextId), body);
        && b.id !in Ids(old(repo.rows))
        && resp == Response(201, CreatedMessage, BookData(b))
        && repo.rows == old(repo.rows) + [b]
        && repo.nextId == old(repo.nextId) + 1
    {
      if fault {
        return ServerError();
      }
      var r := repo.CreateBook(body);
      resp := CreateReply(r);
    }

    /** `getBooks`: default the query parameters, fetch one page and count the pages.
        Nothing catches a failure here, so a failing query sends no reply (`None`). */
    method GetBooks(query: ListQuery, fault: bool) returns (reply: Option<Response>)
      requires repo.Valid()
      ensures reply.None? <==>
        fault || QueryRefused(query.search.GetOr(""), NumberOr(query.page, 1), NumberOr(query.limit, 10))
      ensures reply.Some? ==>
        var search, page, limit := query.search.GetOr(""), NumberOr(query.page, 1), NumberOr(query.limit, 10);
        var selected := Filter(repo.rows, search);
        && 0 < limit <= BigintMax && page >= 1 && (page - 1) * limit <= BigintMax
        && reply.value == Response(200, FetchedMessage,
                                   Listing(page, TotalPages(|selected|, limit), |selected|, Window(selected, page, limit)))
    {
      var search := "";
      var page := 1;
      var limit := 10;
      search := query.search.GetOr("");
      page := NumberOr(query.page, 1);
      limit := NumberOr(query.limit, 10);
      if fault {
        return None;
      }
      var fetched := repo.GetBooks(search, page, limit);
      if fetched.Refused? {
        return None;
      }
      var totalPages := TotalPages(fetched.value.totalBooks, limit);
      reply := Some(Response(200, FetchedMessage,
                             Listing(page, totalPages, fetched.value.totalBooks, fetched.value.books)));
    }

    /** `getBookById`: 200 with the book, 404 when there is none, 500 on failure, including
        an id the key column cannot hold. */
    method GetBookById(id: int, fault: bool) returns (resp: Response)
      requires repo.Valid()
      ensures fault || !FitsInt4(id) ==> resp == ServerError()
      ensures !fault && FitsInt4(id) ==> resp == FindReply(Find(repo.rows, id))
      ensures !fault && FitsInt4(id) ==> (resp == NotFoundReply() <==> id !in Ids(repo.rows))
      ensures !fault && FitsInt4(id) && id in Ids(repo.rows) ==>
        resp.status == 200 && resp.message == FetchedMessage && resp.data.BookData?
        && resp.data.book in repo.rows && resp.data.book.id == id
    {
      if fault {
        return ServerError();
      }
      var found := repo.GetBookById(id);
      resp := if found.Refused? then ServerError() else FindReply(found.value);
    }

    /** `updateBook`: merge the supplied fields; 201 with the saved book, 404 when absent,
        500 on failure, including an id the key column cannot hold. */
    method UpdateBook(id: int, patch: BookPatch, fault: bool) returns (resp: Response)
      requires repo.Valid()
      modifies repo
      ensures repo.Valid() && repo.nextId == old(repo.nextId)
      ensures fault || !FitsInt4(id) ==> resp == ServerError() && repo.rows == old(repo.rows)
      ensures !fault && FitsInt4(id) && id !in Ids(old(repo.rows)) ==>
        resp == NotFoundReply() && repo.rows == old(repo.rows)
      ensures !fault && FitsInt4(id) && id in Ids(old(repo.rows)) ==>
        exists k :: && 0 <= k < |old(repo.rows)| && old(repo.rows)[k].id == id
                    && if Storable(Merge(old(repo.rows)[k], patch)) then
                         var b := Row(id, Merge(old(repo.rows)[k], patch));
                         resp == Response(201, UpdatedMessage, BookData(b)) && repo.rows == old(repo.rows)[k := b]
                       else
                         resp == ServerError() && repo.rows == old(repo.rows)
    {
      if fault {
        return ServerError();
      }
      var r := repo.UpdateBook(id, patch);
      resp := UpdateReply(r);
    }

    /** `deleteBook`: 201 with no payload when a row went, 404 when there was none, 500 on
        failure, including an id the key column cannot hold. */
    method DeleteBook(id: int, fault: bool) returns (resp: Response)
      requires repo.Valid()
      modifies repo
      ensures repo.Valid() && repo.nextId == old(repo.nextId)
      ensures fault || !FitsInt4(id) ==> resp == ServerError() && repo.rows == old(repo.rows)
      ensures !fault && FitsInt4(id) ==>
        resp == DeleteReply(id in Ids(old(repo.rows))) && repo.rows == Without(old(repo.rows), id)
    {
      if fault {
        return ServerError();
      }
      var removed := repo.DeleteBook(id);
      resp := if removed.Refused? then ServerError() else DeleteReply(removed.value);
    }
  }
}
