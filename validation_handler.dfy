/** `validationHandler(BookDto)`: the middleware that stops a request whose body fails
    validation with a 422 reply listing every constraint message, and otherwise hands the
    request on to the next handler. */
module ValidationHandler {
  import opened Wrappers
  import opened Envelope
  import Dto

  const ValidationErrorMessage := "Validation Error"

  /** `Object.values(err.constraints || {})`. */
  function ConstraintMessages(e: Dto.ValidationError): seq<string>
  {
    e.constraints.GetOr([])
  }

  /** `errors.map(err => Object.values(err.constraints || {})).flat()`. */
  function ErrorMessages(errors: seq<Dto.ValidationError>): seq<string>
  {
    if errors == [] then [] else ConstraintMessages(errors[0]) + ErrorMessages(errors[1..])
  }

  /** Either the middleware answers, or it calls `next()`. */
  datatype Gate = Next | Reject(response: Response)

  function Handle(errors: seq<Dto.ValidationError>): (g: Gate)
    ensures g.Next? <==> errors == []
    ensures g.Reject? ==> && g.response.status == 422
                          && g.response.message == ValidationErrorMessage
                          && g.response.data.Messages?
                          && forall m :: m in g.response.data.messages <==>
                               exists e :: e in errors && m in ConstraintMessages(e)
  {
    ErrorMessagesMembers(errors);
    if |errors| > 0 then Reject(Response(422, ValidationErrorMessage, Messages(ErrorMessages(errors))))
    else Next
  }

  /** Flattening distributes over the list: the messages of two runs of errors are the
      first run's messages followed by the second's. */
  lemma {:induction false} ErrorMessagesAppend(a: seq<Dto.ValidationError>, b: seq<Dto.ValidationError>)
    ensures ErrorMessages(a + b) == ErrorMessages(a) + ErrorMessages(b)
  {
    if a == [] {
      assert a + b == b;
    } else {
      assert (a + b)[0] == a[0] && (a + b)[1..] == a[1..] + b;
      ErrorMessagesAppend(a[1..], b);
    }
  }

  /** Nothing is lost or invented: a message is in the reply iff some error carries it. */
  lemma {:induction false} ErrorMessagesMembers(errors: seq<Dto.ValidationError>)
    ensures forall m :: m in ErrorMessages(errors) <==> exists e :: e in errors && m in ConstraintMessages(e)
  {
    if errors != [] {
      ErrorMessagesMembers(errors[1..]);
      forall m | m in ErrorMessages(errors[1..])
        ensures exists e :: e in errors && m in ConstraintMessages(e)
      {
        var e :| e in errors[1..] && m in ConstraintMessages(e);
        assert e in errors;
      }
      forall m, e | e in errors && m in ConstraintMessages(e)
        ensures m in ErrorMessages(errors)
      {
        if e != errors[0] {
          assert e in errors[1..];
        }
      }
    }
  }

  /** Every message of every error counts, in order, not just the first error's. */
  lemma {:induction false} ErrorMessagesLength(errors: seq<Dto.ValidationError>)
    ensures |ErrorMessages(errors)| == SumOfCounts(errors)
  {
    if errors != [] {
      ErrorMessagesLength(errors[1..]);
    }
  }

  function SumOfCounts(errors: seq<Dto.ValidationError>): nat
  {
    if errors == [] then 0 else |ConstraintMessages(errors[0])| + SumOfCounts(errors[1..])
  }

  /** An error without constraints adds no message, yet still stops the request. */
  lemma ConstraintlessErrorRejects(property: string, rest: seq<Dto.ValidationError>)
    ensures Handle([Dto.ValidationError(property, None)] + rest).Reject?
    ensures ErrorMessages([Dto.ValidationError(property, None)] + rest) == ErrorMessages(rest)
  {
    assert ([Dto.ValidationError(property, None)] + rest)[1..] == rest;
  }

  /** For a book body: the request goes on exactly when the body is valid, and otherwise the
      reply lists the messages of every failing field, field by field. */
  lemma BookBodyGate(p: Dto.Payload, maxYear: int)
    ensures Handle(Dto.Validate(p, maxYear)).Next? <==> Dto.ValidPayload(p, maxYear)
    ensures Handle(Dto.Validate(p, maxYear)).Reject? ==>
      Handle(Dto.Validate(p, maxYear)).response.data.messages ==
        ErrorMessages(Dto.FieldErrors(Dto.Title, p.title, maxYear))
        + ErrorMessages(Dto.FieldErrors(Dto.Author, p.author, maxYear))
        + ErrorMessages(Dto.FieldErrors(Dto.PublishedYear, p.publishedYear, maxYear))
        + ErrorMessages(Dto.FieldErrors(Dto.Genres, p.genres, maxYear))
        + ErrorMessages(Dto.FieldErrors(Dto.Stock, p.stock, maxYear))
  {
    Dto.ValidateIff(p, maxYear);
    var t, a, y, n, k := Dto.FieldErrors(Dto.Title, p.title, maxYear), Dto.FieldErrors(Dto.Author, p.author, maxYear),
      Dto.FieldErrors(Dto.PublishedYear, p.publishedYear, maxYear), Dto.FieldErrors(Dto.Genres, p.genres, maxYear),
      Dto.FieldErrors(Dto.Stock, p.stock, maxYear);
    ErrorMessagesAppend(t, a);
    ErrorMessagesAppend(t + a, y);
    ErrorMessagesAppend(t + a + y, n);
    ErrorMessagesAppend(t + a + y + n, k);
  }
}
