/** The `books` table row and the values that reach the repository from a request.
    A JavaScript number is modelled as a `real`; the table's `published_year` and
    `stock` columns are PostgreSQL `integer` columns (TypeORM's mapping of `number`),
    and `id` is a generated `serial` key. */
module Entities {
  import opened Wrappers

  /** A stored row. */
  datatype Book = Book(
    id: int,
    title: string,
    author: string,
    publishedYear: int,
    genres: seq<string>,
    stock: int)

  /** The five caller-supplied fields of a book, before the database has stored them. */
  datatype BookDraft = BookDraft(
    title: string,
    author: string,
    publishedYear: real,
    genres: seq<string>,
    stock: real)

  /** A `Partial<Book>` update: `None` is a field left `undefined`, which a merge skips. */
  datatype BookPatch = BookPatch(
    title: Option<string>,
    author: Option<string>,
    publishedYear: Option<real>,
    genres: Option<seq<string>>,
    stock: Option<real>)

  const Int4Min: int := -0x8000_0000
  const Int4Max: int := 0x7FFF_FFFF

  /** A JavaScript number with no fractional part. */
  predicate IsWhole(x: real)
  {
    x == x.Floor as real
  }

  /** An integer within PostgreSQL's `integer` range. The `id` key is such a column, so an
      id outside it makes a lookup, update or delete by that id fail. */
  predicate FitsInt4(n: int)
  {
    Int4Min <= n <= Int4Max
  }

  /** A number PostgreSQL accepts for an `integer` column: whole and within 32 bits. */
  predicate IsInt4(x: real)
  {
    IsWhole(x) && FitsInt4(x.Floor)
  }

  /** Text PostgreSQL accepts for a `text` value: it cannot hold the character U+0000. */
  predicate NulFree(s: string)
  {
    '\0' !in s
  }

  /** Every field of the draft fits its column, so an INSERT or UPDATE succeeds: the numbers
      are whole and within 32 bits, and no text holds U+0000. */
  predicate Storable(d: BookDraft)
  {
    && IsInt4(d.publishedYear) && IsInt4(d.stock)
    && NulFree(d.title) && NulFree(d.author) && (forall g :: g in d.genres ==> NulFree(g))
  }

  /** The row the database holds after storing `d` under key `id`. */
  function Row(id: int, d: BookDraft): (b: Book)
    requires Storable(d)
    ensures b.id == id && b.title == d.title && b.author == d.author && b.genres == d.genres
    ensures b.publishedYear as real == d.publishedYear && b.stock as real == d.stock
  {
    Book(id, d.title, d.author, d.publishedYear.Floor, d.genres, d.stock.Floor)
  }

  /** A stored row read back as the entity object TypeORM hands out. */
  function AsDraft(b: Book): BookDraft
  {
    BookDraft(b.title, b.author, b.publishedYear as real, b.genres, b.stock as real)
  }

  /** `repository.merge(book, patch)`: every supplied field overwrites, every `undefined` one is kept. */
  function Merge(b: Book, p: BookPatch): (d: BookDraft)
    ensures d.title == (if p.title.Some? then p.title.value else b.title)
    ensures d.author == (if p.author.Some? then p.author.value else b.author)
    ensures d.publishedYear == (if p.publishedYear.Some? then p.publishedYear.value else b.publishedYear as real)
    ensures d.genres == (if p.genres.Some? then p.genres.value else b.genres)
    ensures d.stock == (if p.stock.Some? then p.stock.value else b.stock as real)
  {
    var e := AsDraft(b);
    BookDraft(
      p.title.GetOr(e.title), p.author.GetOr(e.author), p.publishedYear.GetOr(e.publishedYear),
      p.genres.GetOr(e.genres), p.stock.GetOr(e.stock))
  }

  /** Storing a row and reading it back changes nothing; merging an empty patch is the identity. */
  lemma RowOfStoredRow(b: Book)
    ensures Storable(AsDraft(b)) <==> && FitsInt4(b.publishedYear) && FitsInt4(b.stock)
                                      && NulFree(b.title) && NulFree(b.author)
                                      && (forall g :: g in b.genres ==> NulFree(g))
    ensures Storable(AsDraft(b)) ==> Row(b.id, AsDraft(b)) == b
    ensures Merge(b, BookPatch(None, None, None, None, None)) == AsDraft(b)
  {
  }

  /** Merging the same patch twice is the same as merging it once. */
  lemma MergeIdempotent(b: Book, p: BookPatch)
    requires Storable(Merge(b, p))
    ensures Merge(Row(b.id, Merge(b, p)), p) == Merge(b, p)
  {
  }
}
