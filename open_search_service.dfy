/**
 * `BookOpenSearchService`: validation of search-document creation, lookup and removal
 * through the repository, and pass-through of searches.
 */
module OpenSearchService {

  import opened Wrappers
  import opened JavaText
  import opened Model
  import opened OpenSearchQuery
  import opened OpenSearchRepository

  /**
   * The creation guard of `createBook`, as the Java conjunction is written: trimmed
   * strings non-empty, genres non-empty WITHOUT trimming, published strictly before
   * today, rating in 0..5, positive price, non-negative stock, visibility given.
   */
  function AcceptsIndexRequest(request: Option<CreateBookIndexRequest>, today: Date): (ok: bool)
    ensures ok <==> (
      && request.Some?
      && var r := request.value;
      && HasNonSpace(r.title) && HasNonSpace(r.author) && HasNonSpace(r.editorial)
      && r.pages > 0
      && |r.genres| > 0
      && r.publishedDate < today
      && 0 <= r.rating <= 5
      && r.price > 0.0
      && HasNonSpace(r.coverImage) && HasNonSpace(r.dimensions)
      && r.stock >= 0
      && r.visible.Some?)
  {
    && request.Some?
    && HasLength(Some(Trim(request.value.title)))
    && HasLength(Some(Trim(request.value.author)))
    && HasLength(Some(Trim(request.value.editorial)))
    && request.value.pages > 0
    && !(|request.value.genres| == 0)
    && request.value.publishedDate < today
    && request.value.rating >= 0 && request.value.rating < 6
    && request.value.price > 0.0
    && HasLength(Some(Trim(request.value.coverImage)))
    && HasLength(Some(Trim(request.value.dimensions)))
    && request.value.stock >= 0
    && request.value.visible.Some?
  }

  /** Genres are not trimmed: a single space passes the genres check. */
  lemma BlankGenresAccepted(r: CreateBookIndexRequest, today: Date)
    requires AcceptsIndexRequest(Some(r), today)
    ensures AcceptsIndexRequest(Some(r.(genres := " ")), today)
  {
  }

  /** A blank title, unlike blank genres, is rejected: the title is trimmed first. */
  lemma BlankTitleRejected(r: CreateBookIndexRequest, today: Date)
    ensures !AcceptsIndexRequest(Some(r.(title := " ")), today)
  {
    assert !HasNonSpace(" ");
  }

  class BookOpenSearchService {
    const repository: BookOpenSearchRepository

    constructor (repository: BookOpenSearchRepository)
      ensures this.repository == repository
    {
      this.repository := repository;
    }

    /** `getBooks`: hands all seven arguments to `findBooks` unchanged. */
    method GetBooks(title: JString, author: JString, editorial: JString,
                    genres: JString, rating: JString, price: JString, aggregate: bool)
      returns (response: BooksQueryResponse)
      ensures response == Response(repository.engine(SearchQuery(title, author, aggregate), repository.docs),
                                   repository.serverFullAddress, title, author, editorial)
    {
      response := repository.FindBooks(title, author, editorial, genres, rating, price, aggregate);
    }

    /** `getBook`: the stored document, whose id is the requested one, or null. */
    method GetBook(id: string) returns (doc: Option<BookIndex>)
      requires repository.Valid()
      ensures doc.Some? <==> id in repository.docs
      ensures doc.Some? ==> doc.value == repository.docs[id] && doc.value.id == Some(id)
    {
      doc := repository.FindById(id);
    }

    /** `removeBook`: deletes the found document and answers true, or answers false. */
    method RemoveBook(id: string) returns (removed: bool)
      requires repository.Valid()
      modifies repository
      ensures repository.Valid()
      ensures removed <==> id in old(repository.docs)
      ensures repository.docs == old(repository.docs) - {id}
      ensures repository.deleteLog == old(repository.deleteLog) + (if removed then [old(repository.docs)[id]] else [])
      ensures repository.saveLog == old(repository.saveLog)
    {
      var found := repository.FindById(id);
      if found.Some? {
        var _ := repository.Delete(found.value);
        removed := true;
      } else {
        removed := false;
      }
    }

    /**
     * `createBook`: on an accepted request, saves exactly one new document copied from
     * the request and returns it; the index assigns it `generatedId`, an id it does not
     * hold yet. Otherwise returns null and saves nothing.
     */
    method CreateBook(request: Option<CreateBookIndexRequest>, today: Date, generatedId: string)
      returns (created: Option<BookIndex>)
      requires repository.Valid() && generatedId !in repository.docs
      modifies repository
      ensures repository.Valid()
      ensures created.Some? <==> AcceptsIndexRequest(request, today)
      ensures created.Some? ==>
        && IndexRequestOf(created.value) == request.value
        && created.value.id == Some(generatedId)
        && repository.docs == old(repository.docs)[generatedId := created.value]
        && |repository.docs| == |old(repository.docs)| + 1
        && repository.saveLog == old(repository.saveLog) + [NewBookIndex(request.value)]
      ensures created.None? ==>
        repository.docs == old(repository.docs) && repository.saveLog == old(repository.saveLog)
      ensures repository.deleteLog == old(repository.deleteLog)
    {
      if AcceptsIndexRequest(request, today) {
        var doc := NewBookIndex(request.value);
        var saved := repository.Save(doc, generatedId);
        created := Some(saved);
      } else {
        created := None;
      }
    }
  }
}
