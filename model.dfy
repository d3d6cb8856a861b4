/**
 * The catalogue's entities and request bodies: the relational `Book` entity (whose
 * `update` overwrites its fields in place), its table row as a value, the search
 * document `BookIndex`, and the two creation requests.
 */
module Model {

  import opened Wrappers

  /** A calendar date as a day number; `a < b` is `LocalDate.isBefore`. */
  type Date = int

  /** Body of a relational create or full-update request (`CreateBookRequest`). */
  datatype CreateBookRequest = CreateBookRequest(
    title: string,
    author: string,
    editorial: string,
    pages: int,
    genres: seq<string>,
    publishedDate: Date,
    rating: int,
    price: real,
    coverImage: string,
    dimensions: string,
    stock: int,
    visible: Option<bool>)

  /** The stored value of a `Book`: its generated id and its twelve mutable fields. */
  datatype BookRow = BookRow(
    id: Option<int>,
    title: string,
    author: string,
    editorial: string,
    pages: int,
    genres: seq<string>,
    publishedDate: Date,
    rating: int,
    price: real,
    coverImage: string,
    dimensions: string,
    stock: int,
    visible: Option<bool>)

  /** The twelve mutable fields of a row, read back as a request. */
  function RequestOf(b: BookRow): CreateBookRequest {
    CreateBookRequest(b.title, b.author, b.editorial, b.pages, b.genres, b.publishedDate,
                      b.rating, b.price, b.coverImage, b.dimensions, b.stock, b.visible)
  }

  /** The row `Book.builder()` assembles from a request: every field copied, no id. */
  function NewBookRow(r: CreateBookRequest): (b: BookRow)
    ensures b.id == None && RequestOf(b) == r
  {
    BookRow(None, r.title, r.author, r.editorial, r.pages, r.genres, r.publishedDate,
            r.rating, r.price, r.coverImage, r.dimensions, r.stock, r.visible)
  }

  /** The row after `Book.update(r)`: the id is kept, the twelve fields come from `r`. */
  function Updated(b: BookRow, r: CreateBookRequest): (u: BookRow)
    ensures u.id == b.id && RequestOf(u) == r
  {
    NewBookRow(r).(id := b.id)
  }

  /** `update` does not depend on the fields it overwrites, only on the id and the request. */
  lemma UpdatedIgnoresOldFields(b1: BookRow, b2: BookRow, r: CreateBookRequest)
    requires b1.id == b2.id
    ensures Updated(b1, r) == Updated(b2, r)
  {
  }

  /** Applying the same full update twice is the same as applying it once. */
  lemma UpdatedIdempotent(b: BookRow, r: CreateBookRequest)
    ensures Updated(Updated(b, r), r) == Updated(b, r)
  {
  }

  /** The JPA entity `Book`, whose `update` assigns its fields in place. */
  class Book {
    var id: Option<int>
    var title: string
    var author: string
    var editorial: string
    var pages: int
    var genres: seq<string>
    var publishedDate: Date
    var rating: int
    var price: real
    var coverImage: string
    var dimensions: string
    var stock: int
    var visible: Option<bool>

    /** The entity's current field values. */
    function Row(): BookRow
      reads this
    {
      BookRow(id, title, author, editorial, pages, genres, publishedDate, rating, price,
              coverImage, dimensions, stock, visible)
    }

    /** An entity holding the given values (the builder, or a load from the table). */
    constructor FromRow(row: BookRow)
      ensures Row() == row
    {
      id := row.id;
      title := row.title;
      author := row.author;
      editorial := row.editorial;
      pages := row.pages;
      genres := row.genres;
      publishedDate := row.publishedDate;
      rating := row.rating;
      price := row.price;
      coverImage := row.coverImage;
      dimensions := row.dimensions;
      stock := row.stock;
      visible := row.visible;
    }

    /**
     * `update`: copies all twelve request fields without checking them; `id` is untouched.
     * The twelve assignments are made four at a time by the three steps below. They are
     * grouped only to keep each proof small: with twelve field writes in one method body,
     * the frame reasoning behind `Row()` alone nears the verifier's resource limit.
     */
    method Update(r: CreateBookRequest)
      modifies this
      ensures id == old(id) && RequestOf(Row()) == r
      ensures Row() == NewBookRow(r).(id := old(id))
    {
      CopyPublication(r);
      CopyCataloguing(r);
      CopyListing(r);
    }

    method CopyPublication(r: CreateBookRequest)
      modifies this
      ensures Row() == old(Row()).(title := r.title, author := r.author, editorial := r.editorial, pages := r.pages)
    {
      title, author, editorial, pages := r.title, r.author, r.editorial, r.pages;
    }

    method CopyCataloguing(r: CreateBookRequest)
      modifies this
      ensures Row() == old(Row()).(genres := r.genres, publishedDate := r.publishedDate, rating := r.rating, price := r.price)
    {
      genres, publishedDate, rating, price := r.genres, r.publishedDate, r.rating, r.price;
    }

    method CopyListing(r: CreateBookRequest)
      modifies this
      ensures Row() == old(Row()).(coverImage := r.coverImage, dimensions := r.dimensions, stock := r.stock, visible := r.visible)
    {
      coverImage, dimensions, stock, visible := r.coverImage, r.dimensions, r.stock, r.visible;
    }
  }

  /** Body of a search-index create request (`CreateBookIndexRequest`); genres is one string. */
  datatype CreateBookIndexRequest = CreateBookIndexRequest(
    title: string,
    author: string,
    editorial: string,
    pages: int,
    genres: string,
    publishedDate: Date,
    rating: int,
    price: real,
    coverImage: string,
    dimensions: string,
    stock: int,
    visible: Option<bool>)

  /** A search document (`BookIndex`), keyed by an index-assigned string id. */
  datatype BookIndex = BookIndex(
    id: Option<string>,
    title: string,
    author: string,
    editorial: string,
    pages: int,
    genres: string,
    publishedDate: Date,
    rating: int,
    price: real,
    coverImage: string,
    dimensions: string,
    stock: int,
    visible: Option<bool>)

  /** The twelve document fields, read back as a request. */
  function IndexRequestOf(d: BookIndex): CreateBookIndexRequest {
    CreateBookIndexRequest(d.title, d.author, d.editorial, d.pages, d.genres, d.publishedDate,
                           d.rating, d.price, d.coverImage, d.dimensions, d.stock, d.visible)
  }

  /** The document `BookIndex.builder()` assembles from a request: every field copied, no id. */
  function NewBookIndex(r: CreateBookIndexRequest): (d: BookIndex)
    ensures d.id == None && IndexRequestOf(d) == r
  {
    BookIndex(None, r.title, r.author, r.editorial, r.pages, r.genres, r.publishedDate,
              r.rating, r.price, r.coverImage, r.dimensions, r.stock, r.visible)
  }
}
