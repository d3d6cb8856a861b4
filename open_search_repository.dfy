/**
 * `BookOpenSearchRepository`: the search index as a map from document id to document,
 * the configured server address, and the search engine, which stays abstract.
 */
module OpenSearchRepository {

  import opened Wrappers
  import opened JavaText
  import opened Model
  import opened OpenSearchQuery

  class BookOpenSearchRepository {
    /** The documents of the index, by id. */
    var docs: map<string, BookIndex>
    /** Every document passed to `save`, oldest first. */
    ghost var saveLog: seq<BookIndex>
    /** Every document passed to `delete`, oldest first. */
    ghost var deleteLog: seq<BookIndex>
    /** The configured `server.fullAddress`. */
    const serverFullAddress: string
    /** The search engine: what `elasticsearchOperations.search` returns for a query. */
    const engine: (NativeQuery, map<string, BookIndex>) -> SearchHits

    /** Every stored document carries the id it is stored under. */
    ghost predicate Valid()
      reads this
    {
      forall id :: id in docs ==> docs[id].id == Some(id)
    }

    constructor (serverFullAddress: string, engine: (NativeQuery, map<string, BookIndex>) -> SearchHits)
      ensures Valid() && docs == map[] && saveLog == [] && deleteLog == []
      ensures this.serverFullAddress == serverFullAddress && this.engine == engine
    {
      docs := map[];
      saveLog, deleteLog := [], [];
      this.serverFullAddress := serverFullAddress;
      this.engine := engine;
    }

    /**
     * `save`: stores the document under its own id, or under the id the index
     * generates (`generatedId`) when it has none, and returns it with that id.
     */
    method Save(doc: BookIndex, generatedId: string) returns (saved: BookIndex)
      requires Valid()
      modifies this
      ensures Valid()
      ensures saved == doc.(id := Some(if doc.id.Some? then doc.id.value else generatedId))
      ensures docs == old(docs)[saved.id.value := saved]
      ensures saveLog == old(saveLog) + [doc] && deleteLog == old(deleteLog)
    {
      var id := if doc.id.Some? then doc.id.value else generatedId;
      saved := doc.(id := Some(id));
      docs := docs[id := saved];
      saveLog := saveLog + [doc];
    }

    /** `delete`: removes the document with the given document's id; always answers true. */
    method Delete(doc: BookIndex) returns (ok: bool)
      requires Valid() && doc.id.Some?
      modifies this
      ensures Valid() && ok
      ensures docs == old(docs) - {doc.id.value}
      ensures deleteLog == old(deleteLog) + [doc] && saveLog == old(saveLog)
    {
      docs := docs - {doc.id.value};
      deleteLog := deleteLog + [doc];
      ok := true;
    }

    /** `findById`: the stored document, which carries the requested id, or nothing. */
    function FindById(id: string): (found: Option<BookIndex>)
      requires Valid()
      reads this
      ensures found.Some? <==> id in docs
      ensures found.Some? ==> found.value == docs[id] && found.value.id == Some(id)
    {
      if id in docs then Some(docs[id]) else None
    }

    /**
     * The bool query of `findBooks`, one `must` clause at a time: the title term, the
     * author match, the title's type-ahead clause, match-all when none of those was
     * added, and the visibility guard last.
     */
    static method BuildMust(title: JString, author: JString) returns (must: seq<Clause>)
      ensures must == MustClauses(title, author)
    {
      var filters: seq<Clause> := [];
      if !IsEmpty(title) {
        filters := filters + [TermText("title", title.value)];
      }
      if !IsEmpty(author) {
        filters := filters + [Match("author", author.value)];
      }
      if !IsEmpty(title) {
        filters := filters + [BoolPrefixMultiMatch(title.value, DescriptionSearchFields)];
      }
      assert filters ==
        (if IsEmpty(title) then [] else [TermText("title", title.value)])
        + (if IsEmpty(author) then [] else [Match("author", author.value)])
        + (if IsEmpty(title) then [] else [BoolPrefixMultiMatch(title.value, DescriptionSearchFields)]);
      must := filters;
      if |must| == 0 {
        must := must + [MatchAll];
      }
      must := must + [VisibleGuard];
    }

    /**
     * The first half of `findBooks`: the bool query, then the aggregation and hit cap
     * when `aggregate` is set.
     */
    static method BuildQuery(title: JString, author: JString, aggregate: bool) returns (query: NativeQuery)
      ensures query == SearchQuery(title, author, aggregate)
    {
      var must := BuildMust(title, author);
      var aggregations: seq<TermsAggregation> := [];
      var maxResults: Option<int> := None;
      if aggregate {
        aggregations := aggregations + [TitleAggregation];
        maxResults := Some(0);
      }
      query := NativeQuery(must, aggregations, maxResults);
    }

    /**
     * `findBooks`: asks the engine with the composed query and, when it aggregated, turns
     * each title bucket into a facet. Genres, rating and price are accepted and unused.
     */
    method FindBooks(title: JString, author: JString, editorial: JString,
                     genres: JString, rating: JString, price: JString, aggregate: bool)
      returns (response: BooksQueryResponse)
      ensures response == Response(engine(SearchQuery(title, author, aggregate), docs),
                                   serverFullAddress, title, author, editorial)
    {
      var query := BuildQuery(title, author, aggregate);
      var result := engine(query, docs);
      var responseAggs: seq<AggregationDetails> := [];
      if result.titleBuckets.Some? {
        var queryParams := QueryParams(title, author, editorial);
        responseAggs := BuildFacets(serverFullAddress, result.titleBuckets.value, queryParams);
      }
      response := BooksQueryResponse(result.hits, responseAggs);
    }

    /** The `forEach` over the buckets: one facet appended per bucket, in bucket order. */
    static method BuildFacets(server: string, buckets: seq<TermsBucket>, queryParams: string)
      returns (responseAggs: seq<AggregationDetails>)
      ensures responseAggs == Facets(server, buckets, queryParams)
    {
      responseAggs := [];
      for i := 0 to |buckets|
        invariant responseAggs + Facets(server, buckets[i..], queryParams) == Facets(server, buckets, queryParams)
      {
        var facet := Facet(server, buckets[i], queryParams);
        assert buckets[i..][0] == buckets[i] && buckets[i..][1..] == buckets[i + 1..];
        responseAggs := responseAggs + [facet];
      }
      assert buckets[|buckets|..] == [];
    }
  }
}
