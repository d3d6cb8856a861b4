/**
 * `BookService`: routing of list queries, validation of creation, full and partial
 * update, and removal, all against the relational `BookRepository`.
 */
module Service {

  import opened Wrappers
  import opened JavaText
  import opened Model
  import opened Table
  import opened Repository

  /**
   * The creation guard of `createBook`, as the Java conjunction is written: trimmed
   * strings non-empty, at least one genre, published strictly before today, rating in
   * 0..5, positive price, non-negative stock, visibility given.
   */
  function AcceptsBookRequest(request: Option<CreateBookRequest>, today: Date): (ok: bool)
    ensures ok <==> (
      && request.Some?
      && var r := request.value;
      && HasNonSpace(r.title) && HasNonSpace(r.author) && HasNonSpace(r.editorial)
      && r.pages > 0
      && |r.genres| > 0
      && r.publishedDate < today
      && 0 <= r.rating <= 5
      && r.price > 0.0
      && HasNonSpace(r.coverImage) && HasNonSpace(r.dimensions)
      && r.stock >= 0
      && r.visible.Some?)
  {
    && request.Some?
    && HasLength(Some(Trim(request.value.title)))
    && HasLength(Some(Trim(request.value.author)))
    && HasLength(Some(Trim(request.value.editorial)))
    && request.value.pages > 0
    && |request.value.genres| > 0
    && request.value.publishedDate < today
    && request.value.rating >= 0 && request.value.rating < 6
    && request.value.price > 0.0
    && HasLength(Some(Trim(request.value.coverImage)))
    && HasLength(Some(Trim(request.value.dimensions)))
    && request.value.stock >= 0
    && request.value.visible.Some?
  }

  /** A book published today is rejected; one published the day before is not. */
  lemma PublishedTodayRejected(r: CreateBookRequest, today: Date)
    requires AcceptsBookRequest(Some(r), today)
    ensures !AcceptsBookRequest(Some(r.(publishedDate := today)), today)
    ensures AcceptsBookRequest(Some(r.(publishedDate := today - 1)), today)
  {
  }

  /** Whether `getBooks` goes to `search`: some filter has length or a visibility is given. */
  predicate Routed(title: JString, author: JString, editorial: JString, visible: Option<bool>) {
    HasLength(title) || HasLength(author) || HasLength(editorial) || visible.Some?
  }

  /**
   * A whitespace-only title is routed to `search` (it has length) but adds no statement
   * there (it is blank): the criteria query runs unfiltered instead of the listing.
   */
  lemma BlankTitleSearchesUnfiltered(title: string)
    requires |title| > 0 && IsBlank(Some(title))
    ensures Routed(Some(title), None, None, None)
    ensures Statements(Some(title), None, None, None) == []
  {
  }

  class BookService {
    const repository: BookRepository
    /**
     * Serialising a book, applying an RFC 7386 merge patch to it, and reading the
     * result back; `None` when the patch cannot be parsed or applied.
     */
    const applyMergePatch: (BookRow, string) -> Option<BookRow>

    constructor (repository: BookRepository, applyMergePatch: (BookRow, string) -> Option<BookRow>)
      ensures this.repository == repository && this.applyMergePatch == applyMergePatch
    {
      this.repository := repository;
      this.applyMergePatch := applyMergePatch;
    }

    /**
     * `getBooks`: with any filter, whatever `search` returns; with none, every row, or
     * null when the table is empty. Null is returned only in that last case.
     */
    method GetBooks(title: JString, author: JString, editorial: JString, visible: Option<bool>)
      returns (books: Option<seq<BookRow>>)
      ensures Routed(title, author, editorial, visible) ==>
        books == Some(Select(Listing(repository.rows), repository.matches, Statements(title, author, editorial, visible)))
      ensures !Routed(title, author, editorial, visible) && books.Some? ==> books.value == Listing(repository.rows)
      ensures books.None? <==> !Routed(title, author, editorial, visible) && repository.rows == map[]
    {
      if HasLength(title) || HasLength(author) || HasLength(editorial) || visible.Some? {
        var found := repository.Search(title, author, editorial, visible);
        return Some(found);
      }
      var all := repository.GetBooks();
      books := if |all| == 0 then None else Some(all);
    }

    /** `getBook`: the entity loaded from the row with that id, or null. */
    method GetBook(id: int) returns (book: Book?)
      ensures book == null <==> id !in repository.rows
      ensures book != null ==> fresh(book) && book.Row() == repository.rows[id]
    {
      book := repository.GetById(id);
    }

    /**
     * `createBook`: on an accepted request, saves one new book copied from the request
     * and returns it with its generated id; otherwise returns null and saves nothing.
     */
    method CreateBook(request: Option<CreateBookRequest>, today: Date) returns (book: Book?)
      requires repository.Valid()
      modifies repository
      ensures repository.Valid()
      ensures book != null <==> AcceptsBookRequest(request, today)
      ensures book != null ==>
        && fresh(book)
        && book.id == Some(old(repository.nextId))
        && RequestOf(book.Row()) == request.value
        && repository.rows == old(repository.rows)[old(repository.nextId) := book.Row()]
        && repository.nextId == old(repository.nextId) + 1
        && repository.saveLog == old(repository.saveLog) + [NewBookRow(request.value)]
      ensures book == null ==>
        && repository.rows == old(repository.rows)
        && repository.nextId == old(repository.nextId)
        && repository.saveLog == old(repository.saveLog)
      ensures repository.deleteLog == old(repository.deleteLog)
    {
      if AcceptsBookRequest(request, today) {
        var built := new Book.FromRow(NewBookRow(request.value));
        book := repository.Save(built);
      } else {
        book := null;
      }
    }

    /**
     * `updateBook`: for a stored id, overwrites every mutable field from the request
     * without validation, keeps the id, saves and returns the entity; otherwise null.
     */
    method UpdateBook(id: int, request: CreateBookRequest) returns (book: Book?)
      requires repository.Valid()
      modifies repository
      ensures repository.Valid()
      ensures book != null <==> id in old(repository.rows)
      ensures book != null ==>
        && fresh(book)
        && book.Row() == Updated(old(repository.rows)[id], request)
        && book.id == Some(id)
        && repository.rows == old(repository.rows)[id := book.Row()]
        && repository.saveLog == old(repository.saveLog) + [book.Row()]
      ensures book == null ==>
        repository.rows == old(repository.rows) && repository.saveLog == old(repository.saveLog)
      ensures repository.nextId == old(repository.nextId) && repository.deleteLog == old(repository.deleteLog)
    {
      book := repository.GetById(id);
      if book == null {
        return null;
      }
      book.Update(request);
      var _ := repository.Save(book);
    }

    /**
     * `partialUpdateBook`: null with nothing saved when the id is unknown or the patch
     * fails; otherwise saves the patched book and returns it. The patch may change the
     * id: a patched book without an id is inserted and gets the new one, a patched book
     * whose id the table lacks is stored under the next id while the returned book keeps
     * the id the patch gave it.
     */
    method PartialUpdateBook(id: int, partialBook: string) returns (patched: Book?)
      requires repository.Valid()
      modifies repository
      ensures repository.Valid()
      ensures patched != null <==>
        id in old(repository.rows) && applyMergePatch(old(repository.rows)[id], partialBook).Some?
      ensures patched != null ==>
        var p := applyMergePatch(old(repository.rows)[id], partialBook).value;
        var k := StoreKey(old(repository.rows), old(repository.nextId), p.id);
        && fresh(patched)
        && patched.Row() == (if p.id.None? then p.(id := Some(k)) else p)
        && repository.rows == old(repository.rows)[k := p.(id := Some(k))]
        && repository.nextId == (if k == old(repository.nextId) then old(repository.nextId) + 1 else old(repository.nextId))
        && repository.saveLog == old(repository.saveLog) + [p]
      ensures patched == null ==>
        && repository.rows == old(repository.rows)
        && repository.nextId == old(repository.nextId)
        && repository.saveLog == old(repository.saveLog)
      ensures repository.deleteLog == old(repository.deleteLog)
    {
      var book := repository.GetById(id);
      if book != null {
        var target := applyMergePatch(book.Row(), partialBook);
        if target.Some? {
          patched := new Book.FromRow(target.value);
          var _ := repository.Save(patched);
        } else {
          patched := null;
        }
      } else {
        patched := null;
      }
    }

    /** `removeBook`: deletes the row and answers true for a stored id, else answers false. */
    method RemoveBook(id: int) returns (removed: bool)
      requires repository.Valid()
      modifies repository
      ensures repository.Valid()
      ensures removed <==> id in old(repository.rows)
      ensures repository.rows == old(repository.rows) - {id}
      ensures repository.deleteLog == old(repository.deleteLog) + (if removed then [old(repository.rows)[id]] else [])
      ensures repository.nextId == old(repository.nextId) && repository.saveLog == old(repository.saveLog)
    {
      var book := repository.GetById(id);
      if book != null {
        repository.Delete(book);
        removed := true;
      } else {
        removed := false;
      }
    }
  }

  /** Removing the same id twice: the second call always answers false. */
  method RemoveTwice(service: BookService, id: int) returns (first: bool, second: bool)
    requires service.repository.Valid()
    modifies service.repository
    ensures first <==> id in old(service.repository.rows)
    ensures !second
    ensures service.repository.rows == old(service.repository.rows) - {id}
  {
    first := service.RemoveBook(id);
    second := service.RemoveBook(id);
  }

  /** A created book read back by its generated id carries exactly the request's fields. */
  method CreateThenGet(service: BookService, request: CreateBookRequest, today: Date)
    returns (created: Book?, fetched: Book?)
    requires service.repository.Valid()
    modifies service.repository
    ensures created != null <==> AcceptsBookRequest(Some(request), today)
    ensures created != null ==> fetched != null && fetched.id == created.id && RequestOf(fetched.Row()) == request
  {
    created := service.CreateBook(Some(request), today);
    fetched := null;
    if created != null {
      fetched := service.GetBook(created.id.value);
    }
  }
}
