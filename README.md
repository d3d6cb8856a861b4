# Books catalogue: a verified model

A Dafny model of the core of the `ms-books-catalogue` service. The service keeps books in
two stores:

- a relational table of `Book` entities, reached through `BookRepository` and `BookService`;
- a search index of `BookIndex` documents, reached through `BookOpenSearchRepository` and
  `BookOpenSearchService`.

The model covers what these classes decide:

- how `findBooks` composes the OpenSearch bool query and its title aggregation;
- how it turns aggregation buckets into facets with refinement URLs (`getQueryParams`);
- the twelve-condition validation both `createBook` operations apply;
- the routing of `getBooks` between the criteria search and the full listing;
- the statement list `search` builds;
- the null / TRUE / FALSE sentinels of get, update, partial update and remove, and what each
  does to the stored rows or documents.

Both stores are classes whose `map` fields the methods change under `modifies` clauses.
Ghost logs record every row or document passed to `save` and `delete`, so "saves nothing"
and "saves exactly once" are stated outright. Java's nullable strings are
`Option<string>`, and Java's `+` on a null reference appends "null". The search engine,
the JSON merge patch and the JPA criteria evaluation are function-valued fields: the model
proves what the service does around them, not what they compute.

Files, one module each: `wrappers.dfy` (Option), `java_text.dfy` (the Java, Spring and
Commons string helpers the code relies on, and the `(int)` cast), `model.dfy` (requests,
rows, documents and the `Book` entity), `open_search_query.dfy` (query, query string and
facets as values), `open_search_repository.dfy`, `open_search_service.dfy`, `table.dfy`
(listing order of the relational table), `book_repository.dfy`, `book_service.dfy`.

The model follows the code as written, including these behaviours:

- `findBooks` treats a title or author as absent only when it is null or empty
  (Commons `isEmpty`, no trim), so a whitespace-only title still adds both title clauses.
- The title term clause, the author match clause and the title's type-ahead clause are
  added in that order, the type-ahead clause after the author clause.
- The editorial pair of the facet URL is emitted when the AUTHOR is non-empty, whatever the
  editorial is (a null editorial prints as `editorial=null`); an editorial without an author
  is dropped. The model keeps this behaviour as written.
- Creation accepts a rating from 0 to 5 and requires a price strictly above 0, where the
  entity's annotations say 1 to 5 and at least 0.

## Model

| member | source | states |
|---|---|---|
| JavaText.Trim | ms-books-catalogue/src/main/java/com/backend/ms_books_catalogue/service/BookService.java:43-45 | the trimmed string is non-empty exactly when the input has a character above U+0020, and starts and ends with such a character |
| JavaText.ToInt32 | ms-books-catalogue/src/main/java/com/backend/ms_books_catalogue/repository/BookOpenSearchRepository.java:110 | the `(int)` cast of a long: a 32-bit value congruent to the input modulo 2^32, the input itself when it already fits |
| Model.NewBookRow | ms-books-catalogue/src/main/java/com/backend/ms_books_catalogue/service/BookService.java:56-68 | the built entity has no id and carries exactly the twelve request fields |
| Model.Updated | ms-books-catalogue/src/main/java/com/backend/ms_books_catalogue/model/Book.java:59-72 | after `update(r)` the id is the old one and the twelve fields are exactly those of `r` |
| Model.UpdatedIgnoresOldFields | ms-books-catalogue/src/main/java/com/backend/ms_books_catalogue/model/Book.java:59-72 | the result of `update` depends only on the id and the request, not on the overwritten fields |
| Model.UpdatedIdempotent | ms-books-catalogue/src/main/java/com/backend/ms_books_catalogue/model/Book.java:59-72 | applying the same update twice equals applying it once |
| Model.Book.Update | ms-books-catalogue/src/main/java/com/backend/ms_books_catalogue/model/Book.java:59-72 | the entity's id is unchanged and its twelve fields now equal the request's, with no check on them |
| Model.NewBookIndex | ms-books-catalogue/src/main/java/com/backend/ms_books_catalogue/service/BookOpenSearchService.java:58-70 | the built document has no id and carries exactly the twelve request fields |
| OpenSearchQuery.MustClauses | ms-books-catalogue/src/main/java/com/backend/ms_books_catalogue/repository/BookOpenSearchRepository.java:57-79 | clause count; visible=true is last and nowhere else; match-all appears iff title and author are both null or empty, the list then being exactly [match-all, visible]; the title term is first, the author match next, the title type-ahead clause over the three description fields last before the guard |
| OpenSearchQuery.SearchQuery | ms-books-catalogue/src/main/java/com/backend/ms_books_catalogue/repository/BookOpenSearchRepository.java:55-87 | the query is the must list plus, iff `aggregate`, exactly the "Title Aggregation" terms aggregation on `title` with size 1000 and a hit cap of 0; editorial, genres, rating and price are not inputs of it |
| OpenSearchQuery.BlankTitleStillFilters | ms-books-catalogue/src/main/java/com/backend/ms_books_catalogue/repository/BookOpenSearchRepository.java:59-69 | a whitespace-only title adds both title clauses and no match-all |
| OpenSearchQuery.QueryParams | ms-books-catalogue/src/main/java/com/backend/ms_books_catalogue/repository/BookOpenSearchRepository.java:116-122 | the query string is the joined `&name=value` pairs of `Params`, with one trailing `&` removed when there is one |
| OpenSearchQuery.JoinedParams | ms-books-catalogue/src/main/java/com/backend/ms_books_catalogue/repository/BookOpenSearchRepository.java:117-119 | joining the listed pairs gives exactly the three conditional segments the code concatenates |
| OpenSearchQuery.EditorialGatedOnAuthor | ms-books-catalogue/src/main/java/com/backend/ms_books_catalogue/repository/BookOpenSearchRepository.java:117-119 | with an empty author the editorial never affects the query string; the editorial pair is listed iff the author is non-empty |
| OpenSearchQuery.EditorialListedWithAuthor | ms-books-catalogue/src/main/java/com/backend/ms_books_catalogue/repository/BookOpenSearchRepository.java:118-119 | the editorial pair is listed iff the author is non-empty, even when the editorial is null or empty |
| OpenSearchQuery.QueryParamsNullEditorialExample | ms-books-catalogue/src/main/java/com/backend/ms_books_catalogue/repository/BookOpenSearchRepository.java:118-119 | an author with a null editorial yields `&author=Ana&editorial=null` |
| OpenSearchQuery.QueryParamsEditorialOnlyExample | ms-books-catalogue/src/main/java/com/backend/ms_books_catalogue/repository/BookOpenSearchRepository.java:117-121 | an empty title and an editorial without an author yield the empty query string |
| OpenSearchQuery.QueryParamsUnstripped | ms-books-catalogue/src/main/java/com/backend/ms_books_catalogue/repository/BookOpenSearchRepository.java:116-122 | when no value contains `&`, nothing is stripped: the query string is exactly the joined pairs |
| OpenSearchQuery.DecodeJoin | ms-books-catalogue/src/main/java/com/backend/ms_books_catalogue/repository/BookOpenSearchRepository.java:116-122 | pairs whose names hold no `&` or `=` and whose values hold no `&` decode back from the joined string unchanged |
| OpenSearchQuery.FacetsFollowBuckets | ms-books-catalogue/src/main/java/com/backend/ms_books_catalogue/repository/BookOpenSearchRepository.java:105-111 | one facet per bucket, in bucket order, facet i built from bucket i |
| OpenSearchQuery.FacetUriDecodes | ms-books-catalogue/src/main/java/com/backend/ms_books_catalogue/repository/BookOpenSearchRepository.java:104-111 | every facet URL is the server address, `/book?`, and a query string that decodes to `title=<bucket key>` followed by exactly the listed pairs |
| OpenSearchQuery.ResponseFacets | ms-books-catalogue/src/main/java/com/backend/ms_books_catalogue/repository/BookOpenSearchRepository.java:96-113 | the response keeps the engine's hits; no facets without aggregations; otherwise facet i has bucket i's key, its count cast to int, and the URL server + `/book?title=` + key + query string |
| OpenSearchRepository.BookOpenSearchRepository.Save | ms-books-catalogue/src/main/java/com/backend/ms_books_catalogue/repository/BookOpenSearchRepository.java:41-43 | the document is stored under its own id, or the generated one when it has none, and returned with that id; nothing else changes |
| OpenSearchRepository.BookOpenSearchRepository.Delete | ms-books-catalogue/src/main/java/com/backend/ms_books_catalogue/repository/BookOpenSearchRepository.java:45-48 | the document with that id is removed and the answer is always true |
| OpenSearchRepository.BookOpenSearchRepository.FindById | ms-books-catalogue/src/main/java/com/backend/ms_books_catalogue/repository/BookOpenSearchRepository.java:50-52 | a document is found iff the id is stored, and it carries that id |
| OpenSearchRepository.BookOpenSearchRepository.BuildMust | ms-books-catalogue/src/main/java/com/backend/ms_books_catalogue/repository/BookOpenSearchRepository.java:57-79 | adding the clauses one `must` at a time yields exactly `MustClauses` |
| OpenSearchRepository.BookOpenSearchRepository.BuildQuery | ms-books-catalogue/src/main/java/com/backend/ms_books_catalogue/repository/BookOpenSearchRepository.java:57-93 | the built query is exactly `SearchQuery` |
| OpenSearchRepository.BookOpenSearchRepository.BuildFacets | ms-books-catalogue/src/main/java/com/backend/ms_books_catalogue/repository/BookOpenSearchRepository.java:105-111 | the facet loop yields exactly `Facets` of the buckets |
| OpenSearchRepository.BookOpenSearchRepository.FindBooks | ms-books-catalogue/src/main/java/com/backend/ms_books_catalogue/repository/BookOpenSearchRepository.java:55-114 | the response is the engine's answer to `SearchQuery(title, author, aggregate)` turned into hits and facets by `Response` |
| OpenSearchService.AcceptsIndexRequest | ms-books-catalogue/src/main/java/com/backend/ms_books_catalogue/service/BookOpenSearchService.java:45-56 | a request is accepted iff it is non-null, title, author, editorial, cover image and dimensions are non-blank after trim, pages > 0, genres non-empty (untrimmed), published strictly before today, rating in 0..5, price > 0, stock >= 0 and visibility given |
| OpenSearchService.BlankGenresAccepted | ms-books-catalogue/src/main/java/com/backend/ms_books_catalogue/service/BookOpenSearchService.java:49 | genres of a single space pass, since genres are not trimmed |
| OpenSearchService.BlankTitleRejected | ms-books-catalogue/src/main/java/com/backend/ms_books_catalogue/service/BookOpenSearchService.java:45 | a title of a single space is rejected |
| OpenSearchService.BookOpenSearchService.GetBooks | ms-books-catalogue/src/main/java/com/backend/ms_books_catalogue/service/BookOpenSearchService.java:20-23 | the result is exactly what `findBooks` answers for the same arguments |
| OpenSearchService.BookOpenSearchService.GetBook | ms-books-catalogue/src/main/java/com/backend/ms_books_catalogue/service/BookOpenSearchService.java:26-28 | a document is returned iff the id is stored, and it is the stored one with that id |
| OpenSearchService.BookOpenSearchService.RemoveBook | ms-books-catalogue/src/main/java/com/backend/ms_books_catalogue/service/BookOpenSearchService.java:31-40 | answers true iff the id was stored; that document and no other is removed and logged as deleted; nothing is saved |
| OpenSearchService.BookOpenSearchService.CreateBook | ms-books-catalogue/src/main/java/com/backend/ms_books_catalogue/service/BookOpenSearchService.java:43-76 | a document is returned iff the request is accepted; it copies the twelve request fields, gets the generated id (one the index does not hold yet) and is saved exactly once, adding one document; a rejected request saves and changes nothing |
| Table.SortedKeys | ms-books-catalogue/src/main/java/com/backend/ms_books_catalogue/service/BookRepository.java:19-21 | the keys in strictly ascending order, each exactly once |
| Table.Listing | ms-books-catalogue/src/main/java/com/backend/ms_books_catalogue/service/BookRepository.java:19-21 | the listing has one entry per row and holds exactly the stored rows |
| Table.Select | ms-books-catalogue/src/main/java/com/backend/ms_books_catalogue/service/BookRepository.java:54 | the selected rows are exactly the listed rows the criteria accept |
| Repository.Statements | ms-books-catalogue/src/main/java/com/backend/ms_books_catalogue/service/BookRepository.java:36-52 | a TITLE MATCH statement iff the name is not blank, AUTHOR EQUAL iff the author is not blank, EDITORIAL MATCH iff the editorial is not blank, VISIBLE EQUAL iff a visibility is given; one per condition met, so none when all strings are blank and visibility is null |
| Repository.StatementsInOrder | ms-books-catalogue/src/main/java/com/backend/ms_books_catalogue/service/BookRepository.java:36-52 | statements appear in the order title, author, editorial, visible |
| Repository.BookRepository.GetBooks | ms-books-catalogue/src/main/java/com/backend/ms_books_catalogue/service/BookRepository.java:19-21 | every stored row, by ascending id |
| Repository.BookRepository.GetById | ms-books-catalogue/src/main/java/com/backend/ms_books_catalogue/service/BookRepository.java:23-25 | null iff the id is not stored, otherwise an entity holding that row |
| Repository.BookRepository.Save | ms-books-catalogue/src/main/java/com/backend/ms_books_catalogue/service/BookRepository.java:27-29 | an entity without an id is inserted under the next identity value, which is written into it; an entity whose id is stored overwrites that row; an entity whose id is not stored becomes a new row under the next identity value, returned as a fresh copy while the argument keeps its id; the entity is logged as saved |
| Repository.BookRepository.Delete | ms-books-catalogue/src/main/java/com/backend/ms_books_catalogue/service/BookRepository.java:31-33 | the row with the entity's id is removed and nothing else changes |
| Repository.BookRepository.BuildStatements | ms-books-catalogue/src/main/java/com/backend/ms_books_catalogue/service/BookRepository.java:36-52 | adding statements one at a time yields exactly `Statements` |
| Repository.BookRepository.Search | ms-books-catalogue/src/main/java/com/backend/ms_books_catalogue/service/BookRepository.java:35-55 | the answer is the stored rows, by ascending id, that the criteria query accepts for `Statements` |
| Service.AcceptsBookRequest | ms-books-catalogue/src/main/java/com/backend/ms_books_catalogue/service/BookService.java:43-54 | a request is accepted iff it is non-null, title, author, editorial, cover image and dimensions are non-blank after trim, pages > 0, at least one genre, published strictly before today, rating in 0..5, price > 0, stock >= 0 and visibility given |
| Service.PublishedTodayRejected | ms-books-catalogue/src/main/java/com/backend/ms_books_catalogue/service/BookService.java:48 | a book published today is rejected, one published the day before is accepted |
| Service.BlankTitleSearchesUnfiltered | ms-books-catalogue/src/main/java/com/backend/ms_books_catalogue/service/BookService.java:27-29 | a whitespace-only title is routed to `search`, which then gets no statement at all |
| Service.BookService.GetBooks | ms-books-catalogue/src/main/java/com/backend/ms_books_catalogue/service/BookService.java:26-34 | with any filter the result is what `search` returns; without one it is the full listing; null iff there is no filter and the table is empty |
| Service.BookService.GetBook | ms-books-catalogue/src/main/java/com/backend/ms_books_catalogue/service/BookService.java:37-39 | null iff the id is not stored, otherwise the stored row |
| Service.BookService.CreateBook | ms-books-catalogue/src/main/java/com/backend/ms_books_catalogue/service/BookService.java:42-74 | a book is returned iff the request is accepted; it holds exactly the request's fields and the next id, and is saved exactly once; a rejected request saves and changes nothing |
| Service.BookService.UpdateBook | ms-books-catalogue/src/main/java/com/backend/ms_books_catalogue/service/BookService.java:77-85 | null and nothing saved iff the id is not stored; otherwise the returned book keeps the id, holds exactly the request's fields, replaces that row and is saved once |
| Service.BookService.PartialUpdateBook | ms-books-catalogue/src/main/java/com/backend/ms_books_catalogue/service/BookService.java:88-104 | null with nothing saved iff the id is not stored or the patch fails; otherwise the patched book is saved once and returned with the id the patch left it (the new id only when the patch removed it), stored under that id when the table has it or else under the next id, which is advanced |
| Service.BookService.RemoveBook | ms-books-catalogue/src/main/java/com/backend/ms_books_catalogue/service/BookService.java:107-116 | answers true iff the id was stored; that row and no other is removed and logged as deleted; nothing is saved |
| Service.RemoveTwice | ms-books-catalogue/src/main/java/com/backend/ms_books_catalogue/service/BookService.java:107-116 | removing the same id a second time answers false |
| Service.CreateThenGet | ms-books-catalogue/src/main/java/com/backend/ms_books_catalogue/service/BookService.java:42-74 | a created book read back by its id carries exactly the request's fields |

## Left out

- The controllers: they only map null and FALSE to HTTP statuses.
- The OpenSearch engine: how term, match and bool-prefix clauses are analysed and scored, and how buckets are computed, are not modelled. The engine is a function field from query and documents to hits and buckets, so `findBooks` is proved for every engine.
- The JSON merge patch (section 2 of RFC 7386) and the Jackson serialisation around it are not modelled. Both are one function field that answers the patched row or `None` when parsing or applying fails.
- The JPA criteria evaluation of `findAll(spec)` is a function field. The `SearchCriteria` and `SearchStatement` classes are not part of this model beyond the statement values.
- Table.Listing: `findAll` promises no order; the model lists rows by ascending id.
- Repository.BookRepository.Save: for an entity whose id the table does not hold (a merge patch can set one), the model inserts a new row under the next identity value and leaves the argument's id alone, as JPA `merge` does in Hibernate before 6.6. Hibernate 6.6 and later throw for such an entity instead; that exception is not modelled. For a stored id, the model returns the argument itself where `merge` returns a managed copy with the same values.
- OpenSearchRepository.BookOpenSearchRepository.Save: the id the index generates for a document without one is a parameter; OpenSearchService.BookOpenSearchService.CreateBook requires it to be an id the index does not hold yet.
- OpenSearchRepository.BookOpenSearchRepository.Delete: requires the document to have an id. Its only caller passes a document it has just found by id.
- `LocalDate.now()` is a `today` parameter; dates are day numbers.
- `Long.valueOf` on the id path parameter: ids are integers, and the exception for a non-numeric id is not modelled.
- Null request fields: every field of the model's requests except `visible` is non-null. In `createBook` a null string field throws from `.trim()`, and a null `pages`, `rating`, `price` or `stock` throws from unboxing, a null `genres` from `.size()` (or `.isEmpty()`), a null `publishedDate` from `.isBefore`; these exceptions are not modelled. `Book.update`, reached through `updateBook`, checks nothing and would store a null field as it is (a request body without `editorial` stores a null editorial); the model's full update cannot express such a row.
- `findBooks` with aggregations present but no "Title Aggregation" entry would throw. The engine reports buckets or none.
- Bean Validation annotations on the entity are never invoked by the code shown.
- Floating point: `price` is a `real`, used only in the comparison `> 0`.
- Logging, configuration injection (`serverFullAddress` is a constructor argument) and Spring wiring.
