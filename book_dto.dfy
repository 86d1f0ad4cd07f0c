/** `BookDto`: the field constraints a create or update body must meet, checked the way
    class-validator checks them. The body is JSON; a member it lacks is `None`
    (`undefined`), and no member is optional, so a missing one fails every constraint on
    it. The upper bound on `published_year` is the calendar year read once, when the class
    is loaded; it is the parameter `maxYear` here. */
module Dto {
  import opened Wrappers
  import opened Entities
  import Text

  /** A JSON value as `body-parser` produces it. */
  datatype Json =
    | JNull
    | JBool(b: bool)
    | JNum(n: real)
    | JStr(s: string)
    | JArr(items: seq<Json>)
    | JObj(members: seq<(string, Json)>)

  /** The five members of a request body the DTO declares; other members are ignored. */
  datatype Payload = Payload(
    title: Option<Json>,
    author: Option<Json>,
    publishedYear: Option<Json>,
    genres: Option<Json>,
    stock: Option<Json>)

  datatype Field = Title | Author | PublishedYear | Genres | Stock

  /** One entry of class-validator's result: the property and its failed constraints'
      messages (`constraints` may be absent altogether). */
  datatype ValidationError = ValidationError(property: string, constraints: Option<seq<string>>)

  /** The constraint decorators `BookDto` uses. */
  datatype Constraint =
    | IsString
    | IsStringEach
    | IsNumber
    | IsInt
    | Min(bound: int)
    | Max(bound: int)
    | IsArray
    | ArrayNotEmpty
    | ArrayMinSize(size: nat)

  const MinYear: int := 1000

  function Name(f: Field): string
  {
    match f
    case Title => "title"
    case Author => "author"
    case PublishedYear => "published_year"
    case Genres => "genres"
    case Stock => "stock"
  }

  function ValueOf(p: Payload, f: Field): Option<Json>
  {
    match f
    case Title => p.title
    case Author => p.author
    case PublishedYear => p.publishedYear
    case Genres => p.genres
    case Stock => p.stock
  }

  /** The decorators on each property, in the order they are applied (bottom-up). */
  function Rules(f: Field, maxYear: int): seq<Constraint>
  {
    match f
    case Title => [IsString]
    case Author => [IsString]
    case PublishedYear => [Max(maxYear), Min(MinYear), IsNumber]
    case Genres => [IsStringEach, ArrayMinSize(1), ArrayNotEmpty, IsArray]
    case Stock => [Min(0), IsInt, IsNumber]
  }

  /** Whether one constraint accepts a value. `each: true` applies the check to every element
      of an array and to the value itself otherwise. */
  predicate Holds(c: Constraint, v: Option<Json>)
  {
    match c
    case IsString => v.Some? && v.value.JStr?
    case IsStringEach =>
      if v.Some? && v.value.JArr? then forall x :: x in v.value.items ==> x.JStr?
      else v.Some? && v.value.JStr?
    case IsNumber => v.Some? && v.value.JNum?
    case IsInt => v.Some? && v.value.JNum? && IsWhole(v.value.n)
    case Min(b) => v.Some? && v.value.JNum? && v.value.n >= b as real
    case Max(b) => v.Some? && v.value.JNum? && v.value.n <= b as real
    case IsArray => v.Some? && v.value.JArr?
    case ArrayNotEmpty => v.Some? && v.value.JArr? && |v.value.items| > 0
    case ArrayMinSize(k) => v.Some? && v.value.JArr? && |v.value.items| >= k
  }

  /** class-validator's default message for a failed constraint on `property`. */
  function Message(property: string, c: Constraint): string
  {
    match c
    case IsString => property + " must be a string"
    case IsStringEach => "each value in " + property + " must be a string"
    case IsNumber => property + " must be a number conforming to the specified constraints"
    case IsInt => property + " must be an integer number"
    case Min(b) => property + " must not be less than " + Text.Decimal(b)
    case Max(b) => property + " must not be greater than " + Text.Decimal(b)
    case IsArray => property + " must be an array"
    case ArrayNotEmpty => property + " should not be empty"
    case ArrayMinSize(k) => property + " must contain at least " + Text.Decimal(k) + " elements"
  }

  /** The messages of the constraints in `cs` that `v` fails, in order. */
  function Failed(property: string, cs: seq<Constraint>, v: Option<Json>): seq<string>
  {
    if cs == [] then []
    else (if Holds(cs[0], v) then [] else [Message(property, cs[0])]) + Failed(property, cs[1..], v)
  }

  /** The error entry a property contributes: none when it passes every constraint. */
  function FieldErrors(f: Field, v: Option<Json>, maxYear: int): seq<ValidationError>
  {
    var messages := Failed(Name(f), Rules(f, maxYear), v);
    if messages == [] then [] else [ValidationError(Name(f), Some(messages))]
  }

  /** `validate(plainToInstance(BookDto, body))`: one entry per failing property, in the
      order the properties are declared, each listing every constraint that property fails. */
  function Validate(p: Payload, maxYear: int): seq<ValidationError>
  {
    FieldErrors(Title, p.title, maxYear)
    + FieldErrors(Author, p.author, maxYear)
    + FieldErrors(PublishedYear, p.publishedYear, maxYear)
    + FieldErrors(Genres, p.genres, maxYear)
    + FieldErrors(Stock, p.stock, maxYear)
  }

  // ---------------------------------------------------------------------------
  // The rules stated directly, and their agreement with the decorator semantics
  // ---------------------------------------------------------------------------

  /** What a valid value of each field is. */
  predicate FieldValid(f: Field, v: Option<Json>, maxYear: int)
  {
    match f
    case Title => v.Some? && v.value.JStr?
    case Author => v.Some? && v.value.JStr?
    case PublishedYear => v.Some? && v.value.JNum? && MinYear as real <= v.value.n <= maxYear as real
    case Genres =>
      && v.Some? && v.value.JArr? && |v.value.items| >= 1
      && forall x :: x in v.value.items ==> x.JStr?
    case Stock => v.Some? && v.value.JNum? && IsWhole(v.value.n) && v.value.n >= 0.0
  }

  predicate ValidPayload(p: Payload, maxYear: int)
  {
    && FieldValid(Title, p.title, maxYear)
    && FieldValid(Author, p.author, maxYear)
    && FieldValid(PublishedYear, p.publishedYear, maxYear)
    && FieldValid(Genres, p.genres, maxYear)
    && FieldValid(Stock, p.stock, maxYear)
  }

  lemma {:induction false} FailedEmptyIff(property: string, cs: seq<Constraint>, v: Option<Json>)
    ensures Failed(property, cs, v) == [] <==> forall i :: 0 <= i < |cs| ==> Holds(cs[i], v)
  {
    if cs != [] {
      FailedEmptyIff(property, cs[1..], v);
      assert forall i :: 1 <= i < |cs| ==> cs[i] == cs[1..][i - 1];
    }
  }

  /** A field produces no error exactly when its value is valid. */
  lemma FieldErrorsIff(f: Field, v: Option<Json>, maxYear: int)
    ensures FieldErrors(f, v, maxYear) == [] <==> FieldValid(f, v, maxYear)
  {
    FailedEmptyIff(Name(f), Rules(f, maxYear), v);
  }

  /** A payload passes validation exactly when every field is valid. */
  lemma ValidateIff(p: Payload, maxYear: int)
    ensures Validate(p, maxYear) == [] <==> ValidPayload(p, maxYear)
  {
    FieldErrorsIff(Title, p.title, maxYear);
    FieldErrorsIff(Author, p.author, maxYear);
    FieldErrorsIff(PublishedYear, p.publishedYear, maxYear);
    FieldErrorsIff(Genres, p.genres, maxYear);
    FieldErrorsIff(Stock, p.stock, maxYear);
  }

  /** A message is listed exactly when it is the message of a constraint the value fails. */
  lemma {:induction false} FailedMembers(property: string, cs: seq<Constraint>, v: Option<Json>)
    ensures forall m :: m in Failed(property, cs, v) <==>
      exists c :: c in cs && !Holds(c, v) && m == Message(property, c)
  {
    if cs != [] {
      FailedMembers(property, cs[1..], v);
      forall m | m in Failed(property, cs, v)
        ensures exists c :: c in cs && !Holds(c, v) && m == Message(property, c)
      {
        if !(m in Failed(property, cs[1..], v)) {
          assert !Holds(cs[0], v) && m == Message(property, cs[0]);
        }
      }
      forall m | exists c :: c in cs && !Holds(c, v) && m == Message(property, c)
        ensures m in Failed(property, cs, v)
      {
        var c :| c in cs && !Holds(c, v) && m == Message(property, c);
        if c != cs[0] {
          assert c in cs[1..];
        }
      }
    }
  }

  /** The entry a field contributes names that field and lists exactly the messages of the
      constraints on that field the value fails, at least one of them. */
  lemma FieldErrorsShape(f: Field, v: Option<Json>, maxYear: int)
    ensures |FieldErrors(f, v, maxYear)| <= 1
    ensures forall e :: e in FieldErrors(f, v, maxYear) ==>
      e.property == Name(f) && e.constraints.Some? && e.constraints.value != []
    ensures forall e, m :: e in FieldErrors(f, v, maxYear) ==>
      (m in e.constraints.value <==> exists c :: c in Rules(f, maxYear) && !Holds(c, v) && m == Message(Name(f), c))
  {
    FailedMembers(Name(f), Rules(f, maxYear), v);
  }

  lemma NameInjective(f: Field, g: Field)
    requires Name(f) == Name(g)
    ensures f == g
  {
    assert Name(f)[0] == Name(g)[0];
  }

  /** The field whose entry `e` is. */
  lemma SourceField(p: Payload, maxYear: int, e: ValidationError) returns (g: Field)
    requires e in Validate(p, maxYear)
    ensures e in FieldErrors(g, ValueOf(p, g), maxYear)
  {
    var t, a, y, n, k := FieldErrors(Title, p.title, maxYear), FieldErrors(Author, p.author, maxYear),
      FieldErrors(PublishedYear, p.publishedYear, maxYear), FieldErrors(Genres, p.genres, maxYear),
      FieldErrors(Stock, p.stock, maxYear);
    InOneOfFive(e, t, a, y, n, k);
    if e in t { g := Title; }
    else if e in a { g := Author; }
    else if e in y { g := PublishedYear; }
    else if e in n { g := Genres; }
    else { g := Stock; }
  }

  lemma InOneOfFive(e: ValidationError, t: seq<ValidationError>, a: seq<ValidationError>, y: seq<ValidationError>,
                    n: seq<ValidationError>, k: seq<ValidationError>)
    requires e in t + a + y + n + k
    ensures e in t || e in a || e in y || e in n || e in k
  {
  }

  /** The entry of field `f`, when it has one, is part of the result. */
  lemma FieldEntryIncluded(p: Payload, maxYear: int, f: Field)
    ensures forall e :: e in FieldErrors(f, ValueOf(p, f), maxYear) ==> e in Validate(p, maxYear)
  {
    var t, a, y, n, k := FieldErrors(Title, p.title, maxYear), FieldErrors(Author, p.author, maxYear),
      FieldErrors(PublishedYear, p.publishedYear, maxYear), FieldErrors(Genres, p.genres, maxYear),
      FieldErrors(Stock, p.stock, maxYear);
    assert Validate(p, maxYear) == t + a + y + n + k;
  }

  /** Every failing field, and only a failing field, contributes an entry of its own, and
      every entry holds at least one message. */
  lemma ErrorPerFailingField(p: Payload, maxYear: int, f: Field)
    ensures (exists e :: e in Validate(p, maxYear) && e.property == Name(f)) <==> !FieldValid(f, ValueOf(p, f), maxYear)
    ensures forall e :: e in Validate(p, maxYear) ==> e.constraints.Some? && e.constraints.value != []
  {
    FieldErrorsIff(f, ValueOf(p, f), maxYear);
    FieldErrorsShape(f, ValueOf(p, f), maxYear);
    FieldEntryIncluded(p, maxYear, f);
    if exists e :: e in Validate(p, maxYear) && e.property == Name(f) {
      var e :| e in Validate(p, maxYear) && e.property == Name(f);
      var g := SourceField(p, maxYear, e);
      FieldErrorsShape(g, ValueOf(p, g), maxYear);
      NameInjective(f, g);
    }
    if !FieldValid(f, ValueOf(p, f), maxYear) {
      assert FieldErrors(f, ValueOf(p, f), maxYear)[0] in Validate(p, maxYear);
    }
    forall e | e in Validate(p, maxYear)
      ensures e.constraints.Some? && e.constraints.value != []
    {
      var g := SourceField(p, maxYear, e);
      FieldErrorsShape(g, ValueOf(p, g), maxYear);
    }
  }

  /** The boundary cases of the rules. */
  lemma RuleBoundaries(maxYear: int)
    requires maxYear >= MinYear
    ensures !FieldValid(PublishedYear, Some(JNum(999.0)), maxYear)
    ensures FieldValid(PublishedYear, Some(JNum(1000.0)), maxYear)
    ensures FieldValid(PublishedYear, Some(JNum(maxYear as real)), maxYear)
    ensures !FieldValid(PublishedYear, Some(JNum(maxYear as real + 1.0)), maxYear)
    ensures !FieldValid(Genres, Some(JArr([])), maxYear)
    ensures FieldValid(Genres, Some(JArr([JStr("")])), maxYear)
    ensures FieldValid(Stock, Some(JNum(0.0)), maxYear)
    ensures !FieldValid(Stock, Some(JNum(-1.0)), maxYear)
    ensures !FieldValid(Stock, Some(JNum(2.5)), maxYear)
    ensures FieldValid(Title, Some(JStr("")), maxYear)
  {
    assert (2.5).Floor == 2;
  }

  // ---------------------------------------------------------------------------
  // From a checked body to the values the controller passes on
  // ---------------------------------------------------------------------------

  /** The body has the JSON types the controller's destructuring expects. */
  predicate WellTyped(p: Payload)
  {
    && p.title.Some? && p.title.value.JStr?
    && p.author.Some? && p.author.value.JStr?
    && p.publishedYear.Some? && p.publishedYear.value.JNum?
    && p.genres.Some? && p.genres.value.JArr? && (forall x :: x in p.genres.value.items ==> x.JStr?)
    && p.stock.Some? && p.stock.value.JNum?
  }

  function Strings(items: seq<Json>): (r: seq<string>)
    requires forall x :: x in items ==> x.JStr?
    ensures |r| == |items| && forall i :: 0 <= i < |items| ==> r[i] == items[i].s
  {
    seq(|items|, i requires 0 <= i < |items| => items[i].s)
  }

  /** `{ title, author, published_year, genres, stock } = req.body` for a create. */
  function ToDraft(p: Payload): BookDraft
    requires WellTyped(p)
  {
    BookDraft(p.title.value.s, p.author.value.s, p.publishedYear.value.n,
              Strings(p.genres.value.items), p.stock.value.n)
  }

  /** The same five members as an update; a validated body supplies all of them. */
  function ToPatch(p: Payload): BookPatch
    requires WellTyped(p)
  {
    var d := ToDraft(p);
    BookPatch(Some(d.title), Some(d.author), Some(d.publishedYear), Some(d.genres), Some(d.stock))
  }

  lemma ValidIsWellTyped(p: Payload, maxYear: int)
    requires ValidPayload(p, maxYear)
    ensures WellTyped(p)
  {
  }

  /** An update with a validated body replaces every field but the id. */
  lemma FullPatchReplaces(b: Book, p: Payload)
    requires WellTyped(p)
    ensures Merge(b, ToPatch(p)) == ToDraft(p)
  {
  }

  /** What a row stored from a validated body satisfies: year within the bounds, at least
      one genre, stock not negative. */
  predicate RowMeetsRules(b: Book, maxYear: int)
  {
    MinYear <= b.publishedYear <= maxYear && |b.genres| >= 1 && b.stock >= 0
  }

  lemma StoredValidBody(id: int, p: Payload, maxYear: int)
    requires ValidPayload(p, maxYear)
    ensures WellTyped(p)
    ensures Storable(ToDraft(p)) ==> RowMeetsRules(Row(id, ToDraft(p)), maxYear)
  {
    ValidIsWellTyped(p, maxYear);
  }
}
