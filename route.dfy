/** The router: five routes under the API root, two of which run `validationHandler(BookDto)`
    before the controller. `Server` is the running application: one controller, one table,
    and the year bound fixed when `BookDto` was loaded. */
module Routes {
  import opened Wrappers
  import opened Entities
  import opened Repository
  import opened Envelope
  import opened Controller
  import Dto
  import ValidationHandler

  datatype Verb = Get | Head | Post | Put | Delete | Patch | Options

  /** `/books`, `/books/:id` with the id already read as an integer, or any other path. */
  datatype Path = BooksPath | BookPath(id: int) | OtherPath

  datatype Handler = CreateBook | GetBooks | GetBookById | UpdateBook | DeleteBook

  /** A route: whether the body is validated first, and the controller handler it ends in. */
  datatype Route = Route(validates: bool, handler: Handler)

  /** The route table. Express serves a HEAD request with the GET route of the same path. */
  function Dispatch(verb: Verb, path: Path): (r: Option<Route>)
    ensures r.Some? ==> (r.value.validates <==> verb == Post || verb == Put)
    ensures r.Some? ==> (r.value.handler in {GetBookById, UpdateBook, DeleteBook} <==> path.BookPath?)
    ensures r.None? <==> || path == OtherPath || verb == Patch || verb == Options
                         || (path == BooksPath && (verb == Put || verb == Delete))
                         || (path.BookPath? && verb == Post)
  {
    match (verb, path)
    case (Post, BooksPath) => Some(Route(true, CreateBook))
    case (Get, BooksPath) => Some(Route(false, GetBooks))
    case (Head, BooksPath) => Some(Route(false, GetBooks))
    case (Get, BookPath(_)) => Some(Route(false, GetBookById))
    case (Head, BookPath(_)) => Some(Route(false, GetBookById))
    case (Put, BookPath(_)) => Some(Route(true, UpdateBook))
    case (Delete, BookPath(_)) => Some(Route(false, DeleteBook))
    case _ => None
  }

  /** Each verb reaches the handler of the same name and nothing else. */
  lemma DispatchTargets(path: Path)
    ensures Dispatch(Post, path).Some? ==> Dispatch(Post, path).value == Route(true, CreateBook)
    ensures Dispatch(Get, path).Some? ==> !Dispatch(Get, path).value.validates
    ensures Dispatch(Put, path).Some? ==> Dispatch(Put, path).value == Route(true, UpdateBook)
    ensures Dispatch(Delete, path).Some? ==> Dispatch(Delete, path).value == Route(false, DeleteBook)
    ensures Dispatch(Head, path) == Dispatch(Get, path)
  {
  }

  datatype Request = Request(verb: Verb, path: Path, query: ListQuery, body: Dto.Payload)

  /** A reply sent by this router, no route here (Express's own fallback answers), or a
      failure nothing catches (no reply is sent). */
  datatype Outcome = Sent(response: Response) | NoRoute | Unhandled

  class Server {
    const controller: BookController
    const maxYear: int

    /** The table is well formed, and every row in it meets the body rules, because rows
        are only ever written from validated bodies. */
    ghost predicate Valid()
      reads this, controller, controller.repo
    {
      && controller.repo.Valid()
      && forall b :: b in controller.repo.rows ==> Dto.RowMeetsRules(b, maxYear)
    }

    /** Start the application on an empty table; `yearAtLoad` is the calendar year when
        `BookDto` is loaded, the bound every later request is checked against. */
    constructor (yearAtLoad: int)
      ensures Valid() && fresh(controller) && fresh(controller.repo)
      ensures maxYear == yearAtLoad && controller.repo.rows == [] && controller.repo.nextId == 1
    {
      controller := new BookController();
      maxYear := yearAtLoad;
    }

    /** One request, start to finish. `fault` says whether the database call fails. */
    method Handle(req: Request, fault: bool) returns (out: Outcome)
      requires Valid()
      modifies controller.repo
      ensures Valid()
      ensures controller.repo.nextId >= old(controller.repo.nextId)
      // unmatched routes and read-only routes leave the table alone
      ensures out == NoRoute <==> Dispatch(req.verb, req.path).None?
      ensures (out == NoRoute || req.verb == Get || req.verb == Head) ==>
        controller.repo.rows == old(controller.repo.rows) && controller.repo.nextId == old(controller.repo.nextId)
      // the validation gate
      ensures Dispatch(req.verb, req.path).Some? && Dispatch(req.verb, req.path).value.validates
              && !Dto.ValidPayload(req.body, maxYear) ==>
        && ValidationHandler.Handle(Dto.Validate(req.body, maxYear)).Reject?
        && out == Sent(ValidationHandler.Handle(Dto.Validate(req.body, maxYear)).response)
        && controller.repo.rows == old(controller.repo.rows)
        && controller.repo.nextId == old(controller.repo.nextId)
      // a failing database call after the gate, or an id the key column cannot hold
      ensures fault && Dispatch(req.verb, req.path) == Some(Route(false, GetBooks)) ==> out == Unhandled
      ensures (fault || (req.path.BookPath? && !FitsInt4(req.path.id)))
              && Dispatch(req.verb, req.path).Some? && Dispatch(req.verb, req.path).value.handler != GetBooks
              && (Dispatch(req.verb, req.path).value.validates ==> Dto.ValidPayload(req.body, maxYear)) ==>
        out == Sent(ServerError()) && controller.repo.rows == old(controller.repo.rows)
      // GET /books and GET /books/:id
      ensures Dispatch(req.verb, req.path) == Some(Route(false, GetBooks)) && !fault ==>
        (out == Unhandled <==>
           QueryRefused(req.query.search.GetOr(""), NumberOr(req.query.page, 1), NumberOr(req.query.limit, 10)))
      ensures Dispatch(req.verb, req.path) == Some(Route(false, GetBooks)) && out.Sent? ==>
        var search, page, limit := req.query.search.GetOr(""), NumberOr(req.query.page, 1), NumberOr(req.query.limit, 10);
        var selected := Filter(controller.repo.rows, search);
        && limit > 0 && page >= 1
        && out.response == Response(200, FetchedMessage,
                                    Listing(page, TotalPages(|selected|, limit), |selected|, Window(selected, page, limit)))
      ensures (req.verb == Get || req.verb == Head) && req.path.BookPath? && !fault && FitsInt4(req.path.id) ==>
        out == Sent(FindReply(Find(controller.repo.rows, req.path.id)))
      // DELETE /books/:id
      ensures req.verb == Delete && req.path.BookPath? && !fault && FitsInt4(req.path.id) ==>
        && out == Sent(DeleteReply(req.path.id in Ids(old(controller.repo.rows))))
        && controller.repo.rows == Without(old(controller.repo.rows), req.path.id)
      // POST /books and PUT /books/:id with a valid body
      ensures req.verb == Post && req.path == BooksPath && !fault && Dto.ValidPayload(req.body, maxYear) ==>
        Dto.WellTyped(req.body) && Created(req.body, old(controller.repo.rows), old(controller.repo.nextId),
                                           controller.repo.rows, out)
      ensures req.verb == Put && req.path.BookPath? && !fault && Dto.ValidPayload(req.body, maxYear) ==>
        Dto.WellTyped(req.body) && Replaced(req.path.id, req.body, old(controller.repo.rows), controller.repo.rows, out)
    {
      var route := Dispatch(req.verb, req.path);
      if route.None? {
        return NoRoute;
      }
      if route.value.validates {
        var gate := ValidationHandler.Handle(Dto.Validate(req.body, maxYear));
        Dto.ValidateIff(req.body, maxYear);
        if gate.Reject? {
          return Sent(gate.response);
        }
        Dto.StoredValidBody(controller.repo.nextId, req.body, maxYear);
      }
      match route.value.handler
      case CreateBook =>
        out := Create(req.body, fault);
      case GetBooks =>
        out := List(req.query, fault);
      case GetBookById =>
        out := Read(req.path.id, fault);
      case UpdateBook =>
        out := Update(req.path.id, req.body, fault);
      case DeleteBook =>
        out := Remove(req.path.id, fault);
    }

    /** GET /books: the listing, or no reply when the query fails. */
    method List(query: ListQuery, fault: bool) returns (out: Outcome)
      requires Valid()
      ensures out.Sent? || out == Unhandled
      ensures out == Unhandled <==>
        fault || QueryRefused(query.search.GetOr(""), NumberOr(query.page, 1), NumberOr(query.limit, 10))
      ensures out.Sent? ==>
        var search, page, limit := query.search.GetOr(""), NumberOr(query.page, 1), NumberOr(query.limit, 10);
        var selected := Filter(controller.repo.rows, search);
        && limit > 0 && page >= 1
        && out.response == Response(200, FetchedMessage,
                                    Listing(page, TotalPages(|selected|, limit), |selected|, Window(selected, page, limit)))
    {
      var reply := controller.GetBooks(query, fault);
      out := if reply.Some? then Sent(reply.value) else Unhandled;
    }

    /** GET /books/:id. */
    method Read(id: int, fault: bool) returns (out: Outcome)
      requires Valid()
      ensures fault || !FitsInt4(id) ==> out == Sent(ServerError())
      ensures !fault && FitsInt4(id) ==> out == Sent(FindReply(Find(controller.repo.rows, id)))
    {
      var resp := controller.GetBookById(id, fault);
      out := Sent(resp);
    }

    /** POST /books once the body has passed validation. */
    method Create(body: Dto.Payload, fault: bool) returns (out: Outcome)
      requires Valid() && Dto.ValidPayload(body, maxYear)
      modifies controller.repo
      ensures Valid() && Dto.WellTyped(body)
      ensures controller.repo.nextId >= old(controller.repo.nextId)
      ensures fault ==> out == Sent(ServerError()) && controller.repo.rows == old(controller.repo.rows)
      ensures !fault ==> Created(body, old(controller.repo.rows), old(controller.repo.nextId), controller.repo.rows, out)
    {
      Dto.StoredValidBody(controller.repo.nextId, body, maxYear);
      var resp := controller.CreateBook(Dto.ToDraft(body), fault);
      out := Sent(resp);
    }

    /** PUT /books/:id once the body has passed validation. */
    method Update(id: int, body: Dto.Payload, fault: bool) returns (out: Outcome)
      requires Valid() && Dto.ValidPayload(body, maxYear)
      modifies controller.repo
      ensures Valid() && Dto.WellTyped(body)
      ensures controller.repo.nextId == old(controller.repo.nextId)
      ensures fault ==> out == Sent(ServerError()) && controller.repo.rows == old(controller.repo.rows)
      ensures !fault ==> Replaced(id, body, old(controller.repo.rows), controller.repo.rows, out)
    {
      Dto.StoredValidBody(id, body, maxYear);
      ghost var before := controller.repo.rows;
      var resp := controller.UpdateBook(id, Dto.ToPatch(body), fault);
      out := Sent(resp);
      UpdatedRowsMeetRules(before, controller.repo.rows, id, body, maxYear);
    }

    /** DELETE /books/:id. */
    method Remove(id: int, fault: bool) returns (out: Outcome)
      requires Valid()
      modifies controller.repo
      ensures Valid()
      ensures controller.repo.nextId == old(controller.repo.nextId)
      ensures fault || !FitsInt4(id) ==> out == Sent(ServerError()) && controller.repo.rows == old(controller.repo.rows)
      ensures !fault && FitsInt4(id) ==>
        && out == Sent(DeleteReply(id in Ids(old(controller.repo.rows))))
        && controller.repo.rows == Without(old(controller.repo.rows), id)
    {
      ghost var before := controller.repo.rows;
      var resp := controller.DeleteBook(id, fault);
      out := Sent(resp);
      WithoutMembers(before, id);
    }
  }

  /** What a successful POST /books does: a storable body becomes the row with the next id,
      appended and returned with 201; one the column types refuse is a 500. */
  ghost predicate Created(body: Dto.Payload, before: seq<Book>, nextId: int, after: seq<Book>, out: Outcome)
    requires Dto.WellTyped(body)
  {
    if Storable(Dto.ToDraft(body)) then
      var b := Row(nextId, Dto.ToDraft(body));
      out == Sent(Response(201, CreatedMessage, BookData(b))) && after == before + [b]
    else
      out == Sent(ServerError()) && after == before
  }

  /** What a successful PUT /books/:id does: an unknown id is a 404; otherwise the row with
      that id is overwritten in place by the body (201), or, when the columns refuse the id
      or the body, a 500. */
  ghost predicate Replaced(id: int, body: Dto.Payload, before: seq<Book>, after: seq<Book>, out: Outcome)
    requires Dto.WellTyped(body)
  {
    if !FitsInt4(id) then
      out == Sent(ServerError()) && after == before
    else if id !in Ids(before) then
      out == Sent(NotFoundReply()) && after == before
    else if Storable(Dto.ToDraft(body)) then
      var b := Row(id, Dto.ToDraft(body));
      && out == Sent(Response(201, UpdatedMessage, BookData(b)))
      && exists k :: 0 <= k < |before| && before[k].id == id && after == before[k := b]
    else
      out == Sent(ServerError()) && after == before
  }

  /** An update from a validated body keeps every row within the rules. */
  lemma UpdatedRowsMeetRules(before: seq<Book>, after: seq<Book>, id: int, p: Dto.Payload, maxYear: int)
    requires Dto.ValidPayload(p, maxYear)
    requires forall b :: b in before ==> Dto.RowMeetsRules(b, maxYear)
    requires || after == before
             || exists k :: && 0 <= k < |before| && before[k].id == id
                            && Dto.WellTyped(p)
                            && Storable(Merge(before[k], Dto.ToPatch(p)))
                            && after == before[k := Row(id, Merge(before[k], Dto.ToPatch(p)))]
    ensures forall b :: b in after ==> Dto.RowMeetsRules(b, maxYear)
  {
    if after != before {
      var k :| && 0 <= k < |before| && before[k].id == id && Dto.WellTyped(p)
               && Storable(Merge(before[k], Dto.ToPatch(p)))
               && after == before[k := Row(id, Merge(before[k], Dto.ToPatch(p)))];
      Dto.FullPatchReplaces(before[k], p);
      Dto.StoredValidBody(id, p, maxYear);
      forall b | b in after ensures Dto.RowMeetsRules(b, maxYear) {
        var j :| 0 <= j < |after| && after[j] == b;
        if j != k {
          assert before[j] == b;
        }
      }
    }
  }

  /** The body of the scenario below: a valid book, stored as one row. */
  function DuneBody(): Dto.Payload
  {
    Dto.Payload(Some(Dto.JStr("Dune")), Some(Dto.JStr("Herbert")), Some(Dto.JNum(1965.0)),
                Some(Dto.JArr([Dto.JStr("Sci-Fi")])), Some(Dto.JNum(3.0)))
  }

  lemma DuneBodyValid(maxYear: int)
    requires maxYear >= 1965
    ensures Dto.ValidPayload(DuneBody(), maxYear) && Dto.WellTyped(DuneBody())
    ensures Dto.ToDraft(DuneBody()) == BookDraft("Dune", "Herbert", 1965.0, ["Sci-Fi"], 3.0)
    ensures Storable(Dto.ToDraft(DuneBody()))
  {
    Dto.ValidIsWellTyped(DuneBody(), maxYear);
  }

  /** create, read, delete, read: 201, 200, 201, 404. */
  method DuneScenario(yearAtLoad: int) returns (statuses: seq<int>)
    requires yearAtLoad >= 1965
    ensures statuses == [201, 200, 201, 404]
  {
    var server := new Server(yearAtLoad);
    var noQuery := ListQuery(None, None, None);
    var noBody := Dto.Payload(None, None, None, None, None);
    DuneBodyValid(yearAtLoad);
    assert FitsInt4(1);
    var created := server.Handle(Request(Post, BooksPath, noQuery, DuneBody()), false);
    var stored := Row(1, Dto.ToDraft(DuneBody()));
    assert created == Sent(Response(201, CreatedMessage, BookData(stored)));
    assert server.controller.repo.rows == [stored];
    var fetched := server.Handle(Request(Get, BookPath(1), noQuery, noBody), false);
    assert fetched == Sent(FindReply(Some(stored)));
    var deleted := server.Handle(Request(Delete, BookPath(1), noQuery, noBody), false);
    assert deleted == Sent(DeleteReply(true));
    assert server.controller.repo.rows == [];
    var gone := server.Handle(Request(Get, BookPath(1), noQuery, noBody), false);
    assert gone == Sent(FindReply(None));
    statuses := [created.response.status, fetched.response.status, deleted.response.status, gone.response.status];
  }
}
