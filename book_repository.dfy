/** The persistence gateway: `BookRepository` over the `books` table.
    The table is the sequence `rows` in id order (the order a fresh `serial` key gives
    rows that are only ever appended) and `nextId` is the key sequence's next value. */
module Repository {
  import opened Wrappers
  import opened Entities
  import Text

  /** The search clause: title, author or some genre contains `search`, ignoring case. */
  predicate Matches(b: Book, search: string)
  {
    Text.ILike(b.title, search) || Text.ILike(b.author, search)
    || exists g :: g in b.genres && Text.ILike(g, search)
  }

  /** A row is selected when there is no search text, or when it matches the search. */
  predicate Selected(b: Book, search: string)
  {
    search == "" || Matches(b, search)
  }

  /** The rows the query selects before paging, in table order. */
  function Filter(rows: seq<Book>, search: string): seq<Book>
  {
    if rows == [] then []
    else Filter(rows[..|rows| - 1], search) + (if Selected(rows[|rows| - 1], search) then [rows[|rows| - 1]] else [])
  }

  /** The page `page` of `limit` rows: skip `(page - 1) * limit` rows, then take up to `limit`. */
  function Window(m: seq<Book>, page: int, limit: int): seq<Book>
    requires page >= 1 && limit > 0
  {
    var skip := (page - 1) * limit;
    if skip >= |m| then [] else m[skip..if skip + limit <= |m| then skip + limit else |m|]
  }

  /** The ids present in a table. */
  function Ids(rows: seq<Book>): set<int>
  {
    set b | b in rows :: b.id
  }

  /** The first row whose key is `id`, if any: what `findOneBy({ id })` returns. */
  function Find(rows: seq<Book>, id: int): Option<Book>
  {
    if rows == [] then None
    else if rows[0].id == id then Some(rows[0])
    else Find(rows[1..], id)
  }

  /** The table without the rows whose key is `id`. */
  function Without(rows: seq<Book>, id: int): seq<Book>
  {
    if rows == [] then []
    else Without(rows[..|rows| - 1], id) + (if rows[|rows| - 1].id == id then [] else [rows[|rows| - 1]])
  }

  /** A well-formed table: positive keys in strictly increasing order, all below `nextId`. */
  ghost predicate Keyed(rows: seq<Book>, nextId: int)
  {
    && 1 <= nextId
    && (forall i :: 0 <= i < |rows| ==> 1 <= rows[i].id < nextId)
    && (forall i, j :: 0 <= i < j < |rows| ==> rows[i].id < rows[j].id)
  }

  /** The outcome of a write that the database can refuse; `Rejected` is a thrown error. */
  datatype SaveResult = Saved(book: Book) | NotFound | Rejected

  /** The outcome of a read or delete: the value the promise resolves to, or `Refused` when
      the database refuses the statement and the promise rejects. */
  datatype Answer<T> = Done(value: T) | Refused

  /** The largest `bigint`, the type of PostgreSQL's LIMIT and OFFSET. */
  const BigintMax: int := 0x7FFF_FFFF_FFFF_FFFF

  /** The parameters for which PostgreSQL refuses `getBooks`'s queries: a negative LIMIT, a
      negative OFFSET (a page below 1), a LIMIT or OFFSET past `bigint`, or a search
      pattern holding U+0000 (an empty search adds no pattern at all). */
  predicate QueryRefused(search: string, page: int, limit: int)
  {
    || limit < 0 || page < 1
    || limit > BigintMax || (page - 1) * limit > BigintMax
    || (search != "" && !NulFree(search))
  }

  /** `getBooks`'s result: one page of rows and the count of all selected rows. */
  datatype Fetched = Fetched(books: seq<Book>, totalBooks: nat)

  class BookRepository {
    var rows: seq<Book>
    var nextId: int

    ghost predicate Valid()
      reads this
    {
      Keyed(rows, nextId)
    }

    /** A repository over an empty table whose key sequence starts at 1. */
    constructor ()
      ensures Valid() && rows == [] && nextId == 1
    {
      rows := [];
      nextId := 1;
    }

    /** `createBook`: the database assigns the next key and appends the row; a value that
        does not fit an integer column makes the INSERT fail and nothing is stored. */
    method CreateBook(d: BookDraft) returns (r: SaveResult)
      requires Valid()
      modifies this
      ensures Valid()
      ensures r.Saved? || r.Rejected?
      ensures r.Rejected? <==> !Storable(d)
      ensures r.Rejected? ==> rows == old(rows) && nextId == old(nextId)
      ensures r.Saved? ==> && r.book == Row(old(nextId), d)
                           && r.book.id !in Ids(old(rows))
                           && rows == old(rows) + [r.book]
                           && nextId == old(nextId) + 1
    {
      if !Storable(d) {
        return Rejected;
      }
      var b := Row(nextId, d);
      rows := rows + [b];
      nextId := nextId + 1;
      r := Saved(b);
    }

    /** `getBooks`: count the selected rows, then fetch one page of them. */
    method GetBooks(search: string, page: int, limit: int) returns (r: Answer<Fetched>)
      requires limit != 0
      ensures r.Refused? <==> || limit < 0 || page < 1
                              || limit > BigintMax || (page - 1) * limit > BigintMax
                              || (search != "" && '\0' in search)
      ensures r.Done? ==> r.value.totalBooks == |Filter(rows, search)|
      ensures r.Done? ==> r.value.books == Window(Filter(rows, search), page, limit)
    {
      var matched: seq<Book> := [];
      var i := 0;
      while i < |rows|
        invariant 0 <= i <= |rows|
        invariant matched == Filter(rows[..i], search)
      {
        assert rows[..i + 1][..i] == rows[..i];
        if Selected(rows[i], search) {
          matched := matched + [rows[i]];
        }
        i := i + 1;
      }
      assert rows[..i] == rows;
      var totalBooks := |matched|;
      if QueryRefused(search, page, limit) {
        return Refused;
      }
      r := Done(Fetched(Window(matched, page, limit), totalBooks));
    }

    /** `getBookById`: the row whose key is `id`, or nothing; an id outside `integer`
        cannot be bound to the key column, and the query fails. */
    method GetBookById(id: int) returns (r: Answer<Option<Book>>)
      requires Valid()
      ensures r.Refused? <==> !FitsInt4(id)
      ensures r.Done? ==> (r.value.Some? <==> id in Ids(rows))
      ensures r.Done? && r.value.Some? ==> r.value.value in rows && r.value.value.id == id
      ensures r.Done? ==> r.value == Find(rows, id)
    {
      if !FitsInt4(id) {
        return Refused;
      }
      var i := 0;
      while i < |rows|
        invariant 0 <= i <= |rows|
        invariant forall k :: 0 <= k < i ==> rows[k].id != id
        invariant Find(rows, id) == Find(rows[i..], id)
      {
        assert rows[i..][1..] == rows[i + 1..];
        if rows[i].id == id {
          return Done(Some(rows[i]));
        }
        i := i + 1;
      }
      return Done(None);
    }

    /** `updateBook`: find the row, merge the supplied fields into it and save it. An id
        outside `integer` makes the lookup fail. */
    method UpdateBook(id: int, p: BookPatch) returns (r: SaveResult)
      requires Valid()
      modifies this
      ensures Valid() && nextId == old(nextId)
      ensures r.NotFound? <==> FitsInt4(id) && id !in Ids(old(rows))
      ensures !r.Saved? ==> rows == old(rows)
      ensures !FitsInt4(id) ==> r.Rejected?
      ensures r.Rejected? ==> || !FitsInt4(id)
                              || exists k :: 0 <= k < |old(rows)| && old(rows)[k].id == id && !Storable(Merge(old(rows)[k], p))
      ensures r.Saved? ==> exists k :: && 0 <= k < |old(rows)| && old(rows)[k].id == id
                                       && Storable(Merge(old(rows)[k], p))
                                       && r.book == Row(id, Merge(old(rows)[k], p))
                                       && rows == old(rows)[k := r.book]
    {
      if !FitsInt4(id) {
        return Rejected;
      }
      var i := 0;
      while i < |rows|
        invariant 0 <= i <= |rows|
        invariant forall k :: 0 <= k < i ==> rows[k].id != id
      {
        if rows[i].id == id {
          var merged := Merge(rows[i], p);
          if !Storable(merged) {
            return Rejected;
          }
          var b := Row(id, merged);
          rows := rows[i := b];
          return Saved(b);
        }
        i := i + 1;
      }
      return NotFound;
    }

    /** `deleteBook`: remove the row with key `id`; report whether one was removed. An id
        outside `integer` makes the DELETE fail, and nothing is removed. */
    method DeleteBook(id: int) returns (r: Answer<bool>)
      requires Valid()
      modifies this
      ensures Valid() && nextId == old(nextId)
      ensures r.Refused? <==> !FitsInt4(id)
      ensures r.Refused? ==> rows == old(rows)
      ensures r.Done? ==> (r.value <==> id in Ids(old(rows)))
      ensures r.Done? ==> rows == Without(old(rows), id)
    {
      if !FitsInt4(id) {
        return Refused;
      }
      var kept: seq<Book> := [];
      var i := 0;
      var removed := false;
      while i < |rows|
        invariant 0 <= i <= |rows|
        invariant kept == Without(rows[..i], id)
        invariant removed <==> id in Ids(rows[..i])
      {
        assert rows[..i + 1] == rows[..i] + [rows[i]];
        if rows[i].id == id {
          removed := true;
        } else {
          kept := kept + [rows[i]];
        }
        i := i + 1;
      }
      assert rows[..i] == rows;
      WithoutKeyed(rows, nextId, id);
      rows := kept;
      r := Done(removed);
    }
  }

  /** Inputs the database refuses: an id past `integer`, a page whose OFFSET is past
      `bigint`, a search or a title holding U+0000; and their ordinary neighbours. */
  lemma RefusalExamples()
    ensures !FitsInt4(3_000_000_000) && FitsInt4(Int4Max) && !FitsInt4(Int4Max + 1)
    ensures QueryRefused("", 10_000_000_000, 1_000_000_000) && !QueryRefused("", 1, 10)
    ensures QueryRefused("\0", 1, 10) && !QueryRefused("", 1, BigintMax)
    ensures !Storable(BookDraft("\0", "Herbert", 1965.0, ["Sci-Fi"], 3.0))
    ensures !Storable(BookDraft("Dune", "Herbert", 1965.0, ["Sci\0Fi"], 3.0))
    ensures Storable(BookDraft("Dune", "Herbert", 1965.0, ["Sci-Fi"], 3.0))
  {
    assert "\0"[0] == '\0';
    var genre := "Sci\0Fi";
    assert genre[3] == '\0';
    assert genre in ["Sci\0Fi"] && !NulFree(genre);
  }

  /** Deleting by key removes exactly the rows with that key and keeps every other row. */
  lemma {:induction false} WithoutMembers(rows: seq<Book>, id: int)
    ensures forall b :: b in Without(rows, id) <==> b in rows && b.id != id
  {
    if rows != [] {
      var front := rows[..|rows| - 1];
      WithoutMembers(front, id);
      assert rows == front + [rows[|rows| - 1]];
    }
  }

  lemma {:induction false} WithoutKeyed(rows: seq<Book>, nextId: int, id: int)
    requires Keyed(rows, nextId)
    ensures Keyed(Without(rows, id), nextId)
  {
    if rows != [] {
      var front := rows[..|rows| - 1];
      var last := rows[|rows| - 1];
      KeyedFront(rows, nextId);
      WithoutKeyed(front, nextId, id);
      WithoutMembers(front, id);
      var w := Without(front, id);
      forall i | 0 <= i < |w|
        ensures w[i].id < last.id
      {
        assert w[i] in front;
        var k :| 0 <= k < |front| && front[k] == w[i];
      }
      if last.id == id {
        assert Without(rows, id) == w + [];
      } else {
        assert Without(rows, id) == w + [last];
        KeyedSnoc(w, last, nextId);
      }
    }
  }

  /** Dropping the last row keeps the keys well formed. */
  lemma KeyedFront(rows: seq<Book>, nextId: int)
    requires Keyed(rows, nextId) && rows != []
    ensures Keyed(rows[..|rows| - 1], nextId)
    ensures forall i :: 0 <= i < |rows| - 1 ==> rows[i].id < rows[|rows| - 1].id
  {
  }

  /** Appending a row whose key exceeds every present key and is below `nextId`. */
  lemma KeyedSnoc(w: seq<Book>, last: Book, nextId: int)
    requires Keyed(w, nextId) && 1 <= last.id < nextId
    requires forall i :: 0 <= i < |w| ==> w[i].id < last.id
    ensures Keyed(w + [last], nextId)
  {
    var r := w + [last];
    assert forall i :: 0 <= i < |w| ==> r[i] == w[i];
  }

  /** The selected rows are exactly the table's rows that pass the search clause. */
  lemma {:induction false} FilterMembers(rows: seq<Book>, search: string)
    ensures forall b :: b in Filter(rows, search) <==> b in rows && Selected(b, search)
    ensures |Filter(rows, search)| <= |rows|
  {
    if rows != [] {
      var front := rows[..|rows| - 1];
      FilterMembers(front, search);
      assert rows == front + [rows[|rows| - 1]];
    }
  }

  /** With no search text every row is selected, in table order. */
  lemma {:induction false} FilterNoSearch(rows: seq<Book>)
    ensures Filter(rows, "") == rows
  {
    if rows != [] {
      FilterNoSearch(rows[..|rows| - 1]);
      assert rows == rows[..|rows| - 1] + [rows[|rows| - 1]];
    }
  }

  /** Case-insensitive substring match, spelled out: the lower-cased search text occurs in
      the lower-cased title, author or one of the genres. */
  lemma MatchesIff(b: Book, search: string)
    ensures Matches(b, search) <==>
      || (exists i :: Text.OccursAt(Text.Lower(b.title), Text.Lower(search), i))
      || (exists i :: Text.OccursAt(Text.Lower(b.author), Text.Lower(search), i))
      || (exists g :: g in b.genres && exists i :: Text.OccursAt(Text.Lower(g), Text.Lower(search), i))
  {
    Text.ILikeIff(b.title, search);
    Text.ILikeIff(b.author, search);
    forall g | g in b.genres
      ensures Text.ILike(g, search) <==> exists i :: Text.OccursAt(Text.Lower(g), Text.Lower(search), i)
    {
      Text.ILikeIff(g, search);
    }
  }

  /** The `if (search)` guard is invisible: the pattern '%%' would select every row anyway. */
  lemma EmptySearchMatchesAll(b: Book)
    ensures Matches(b, "")
  {
    Text.EmptyOccurs(Text.Lower(b.title));
  }

  /** A page holds at most `limit` rows, all of them selected rows, taken consecutively
      from position `(page - 1) * limit`. */
  lemma WindowSlice(m: seq<Book>, page: int, limit: int)
    requires page >= 1 && limit > 0
    ensures |Window(m, page, limit)| <= limit
    ensures forall b :: b in Window(m, page, limit) ==> b in m
    ensures (page - 1) * limit < |m| ==> |Window(m, page, limit)| > 0
    ensures forall k :: 0 <= k < |Window(m, page, limit)| ==> Window(m, page, limit)[k] == m[(page - 1) * limit + k]
    ensures |Window(m, page, limit)| == (if (page - 1) * limit >= |m| then 0
                                        else if page * limit <= |m| then limit
                                        else |m| - (page - 1) * limit)
  {
    var skip := (page - 1) * limit;
    assert page * limit == skip + limit;
    assert skip >= 0;
    var w := Window(m, page, limit);
    if skip < |m| {
      var hi := if skip + limit <= |m| then skip + limit else |m|;
      assert w == m[skip..hi];
      assert forall k :: 0 <= k < |w| ==> w[k] == m[skip + k];
    }
  }

  /** Every row `getBooks` returns is a stored row that passes the search clause. */
  lemma FetchedRowsMatch(rows: seq<Book>, search: string, page: int, limit: int)
    requires page >= 1 && limit > 0
    ensures forall b :: b in Window(Filter(rows, search), page, limit) ==> b in rows && Selected(b, search)
  {
    FilterMembers(rows, search);
    WindowSlice(Filter(rows, search), page, limit);
  }

  /** Keys in a well-formed table are unique, so a key names at most one row. */
  lemma KeyedUnique(rows: seq<Book>, nextId: int, i: int, j: int)
    requires Keyed(rows, nextId)
    requires 0 <= i < |rows| && 0 <= j < |rows| && rows[i].id == rows[j].id
    ensures i == j
  {
  }

  /** After a delete the key is gone, so deleting it again reports that nothing was removed. */
  lemma DeletedKeyAbsent(rows: seq<Book>, id: int)
    ensures id !in Ids(Without(rows, id))
    ensures Ids(Without(rows, id)) == Ids(rows) - {id}
  {
    WithoutMembers(rows, id);
  }

  /** The lookup finds a row exactly when the key is present, and what it finds carries that key. */
  lemma {:induction false} FindMeaning(rows: seq<Book>, id: int)
    ensures Find(rows, id).Some? <==> id in Ids(rows)
    ensures Find(rows, id).Some? ==> Find(rows, id).value in rows && Find(rows, id).value.id == id
  {
    if rows != [] {
      FindMeaning(rows[1..], id);
      assert rows == [rows[0]] + rows[1..];
      assert Ids(rows) == {rows[0].id} + Ids(rows[1..]);
    }
  }
}
