/**
 * What `BookOpenSearchRepository.findBooks` composes, as values: the `must` clauses of
 * the bool query, the terms aggregation, the facet list built from the engine's
 * buckets, and the query string `getQueryParams` appends to every facet URL.
 */
module OpenSearchQuery {

  import opened Wrappers
  import opened JavaText
  import opened Model

  /** One clause of the bool query's `must` list. */
  datatype Clause =
    | TermText(field: string, text: string)
    | TermFlag(field: string, flag: bool)
    | Match(field: string, text: string)
    | BoolPrefixMultiMatch(text: string, fields: seq<string>)
    | MatchAll

  /** The fields the title's type-ahead clause searches (`descriptionSearchFields`). */
  const DescriptionSearchFields: seq<string> := ["description", "description._2gram", "description._3gram"]

  /** The implicit filter every query carries: only visible documents. */
  const VisibleGuard: Clause := TermFlag("visible", true)

  datatype TermsAggregation = TermsAggregation(name: string, field: string, size: int)

  /** The aggregation requested when `aggregate` is set. */
  const TitleAggregation: TermsAggregation := TermsAggregation("Title Aggregation", "title", 1000)

  /** The query handed to the engine: `must` clauses, aggregations and the hit cap. */
  datatype NativeQuery = NativeQuery(must: seq<Clause>, aggregations: seq<TermsAggregation>, maxResults: Option<int>)

  /** One bucket of the title terms aggregation. */
  datatype TermsBucket = TermsBucket(key: string, docCount: int)

  /** What the engine returns: the hits and, when it aggregated, the title buckets. */
  datatype SearchHits = SearchHits(hits: seq<BookIndex>, titleBuckets: Option<seq<TermsBucket>>)

  /** A facet of the response: bucket key, document count and refinement URL. */
  datatype AggregationDetails = AggregationDetails(key: string, count: int, uri: string)

  datatype BooksQueryResponse = BooksQueryResponse(books: seq<BookIndex>, aggs: seq<AggregationDetails>)

  /**
   * The `must` clauses for the given title and author. Title and author count as absent
   * only when null or empty (a blank title is still a filter); the visibility guard is
   * always the last clause and appears nowhere else; match-all stands in exactly when
   * neither filter is present.
   */
  function MustClauses(title: JString, author: JString): (r: seq<Clause>)
    ensures |r| == if IsEmpty(title) && IsEmpty(author) then 2
                   else 1 + (if IsEmpty(title) then 0 else 2) + (if IsEmpty(author) then 0 else 1)
    ensures r[|r| - 1] == VisibleGuard
    ensures forall i :: 0 <= i < |r| - 1 ==> r[i] != VisibleGuard
    ensures IsEmpty(title) && IsEmpty(author) <==> r == [MatchAll, VisibleGuard]
    ensures MatchAll in r <==> IsEmpty(title) && IsEmpty(author)
    ensures !IsEmpty(title) ==> r[0] == TermText("title", title.value)
    ensures !IsEmpty(title) ==> r[|r| - 2] == BoolPrefixMultiMatch(title.value, DescriptionSearchFields)
    ensures !IsEmpty(author) ==> r[if IsEmpty(title) then 0 else 1] == Match("author", author.value)
  {
    var filters :=
      (if IsEmpty(title) then [] else [TermText("title", title.value)])
      + (if IsEmpty(author) then [] else [Match("author", author.value)])
      + (if IsEmpty(title) then [] else [BoolPrefixMultiMatch(title.value, DescriptionSearchFields)]);
    assert filters == [] <==> IsEmpty(title) && IsEmpty(author);
    assert !IsEmpty(title) ==> filters[0] == TermText("title", title.value);
    assert !IsEmpty(author) && IsEmpty(title) ==> filters[0] == Match("author", author.value);
    var r := (if filters == [] then [MatchAll] else filters) + [VisibleGuard];
    assert filters != [] ==> r[0] == filters[0] && r[0] != MatchAll;
    r
  }

  /**
   * The whole query. The `aggregate` flag adds exactly the title aggregation and caps the
   * hits at zero; without it there is neither. Nothing else reaches the query.
   */
  function SearchQuery(title: JString, author: JString, aggregate: bool): (q: NativeQuery)
    ensures q.must == MustClauses(title, author)
    ensures aggregate ==> q.aggregations == [TitleAggregation] && q.maxResults == Some(0)
    ensures !aggregate ==> q.aggregations == [] && q.maxResults == None
  {
    NativeQuery(MustClauses(title, author),
                if aggregate then [TitleAggregation] else [],
                if aggregate then Some(0) else None)
  }

  /** A blank title is not an absent one: it adds both title clauses. */
  lemma BlankTitleStillFilters(blank: string, author: JString)
    requires |blank| > 0 && IsBlank(Some(blank))
    ensures MatchAll !in MustClauses(Some(blank), author)
    ensures TermText("title", blank) in MustClauses(Some(blank), author)
    ensures BoolPrefixMultiMatch(blank, DescriptionSearchFields) in MustClauses(Some(blank), author)
  {
  }

  /**
   * `getQueryParams` as written: `&title=` when the title is non-empty, then `&author=`
   * and `&editorial=` both gated on the AUTHOR being non-empty (a null editorial is
   * printed as "null"), and finally one trailing `&` dropped if there is one.
   */
  function QueryParams(title: JString, author: JString, editorial: JString): (r: string)
    ensures var joined := Join(Params(title, author, editorial));
            if |joined| > 0 && joined[|joined| - 1] == '&' then r + "&" == joined else r == joined
  {
    var raw := (if IsEmpty(title) then "" else "&title=" + title.value)
             + (if IsEmpty(author) then "" else "&author=" + author.value)
             + (if IsEmpty(author) then "" else "&editorial=" + Str(editorial));
    assert raw == Join(Params(title, author, editorial)) by {
      JoinedParams(title, author, editorial);
    }
    if |raw| > 0 && raw[|raw| - 1] == '&' then raw[..|raw| - 1] else raw
  }

  /** The name/value pairs `getQueryParams` re-appends to a facet URL, in order. */
  function Params(title: JString, author: JString, editorial: JString): seq<(string, string)> {
    (if IsEmpty(title) then [] else [("title", title.value)])
    + (if IsEmpty(author) then [] else [("author", author.value), ("editorial", Str(editorial))])
  }

  /** `&name=value` for one pair. */
  function Segment(p: (string, string)): string {
    "&" + p.0 + "=" + p.1
  }

  /** `&name=value` for every pair, in order. */
  function Join(ps: seq<(string, string)>): string {
    if ps == [] then "" else Segment(ps[0]) + Join(ps[1..])
  }

  lemma {:induction false} JoinAppend(ps: seq<(string, string)>, qs: seq<(string, string)>)
    ensures Join(ps + qs) == Join(ps) + Join(qs)
  {
    if ps == [] {
      assert ps + qs == qs;
    } else {
      var pq := ps + qs;
      assert pq[0] == ps[0] && pq[1..] == ps[1..] + qs;
      JoinAppend(ps[1..], qs);
      assert Join(pq) == Segment(ps[0]) + (Join(ps[1..]) + Join(qs));
    }
  }

  lemma JoinOne(name: string, value: string)
    ensures Join([(name, value)]) == "&" + name + "=" + value
  {
    assert [(name, value)][1..] == [];
  }

  lemma JoinedTitle(title: JString)
    ensures Join(if IsEmpty(title) then [] else [("title", title.value)])
         == if IsEmpty(title) then "" else "&title=" + title.value
  {
    if !IsEmpty(title) {
      JoinOne("title", title.value);
      assert "&" + "title" + "=" + title.value == "&title=" + title.value;
    }
  }

  lemma JoinedAuthor(author: JString, editorial: JString)
    ensures Join(if IsEmpty(author) then [] else [("author", author.value), ("editorial", Str(editorial))])
         == (if IsEmpty(author) then "" else "&author=" + author.value)
          + (if IsEmpty(author) then "" else "&editorial=" + Str(editorial))
  {
    if !IsEmpty(author) {
      var a := [("author", author.value)];
      var e := [("editorial", Str(editorial))];
      assert [("author", author.value), ("editorial", Str(editorial))] == a + e;
      JoinAppend(a, e);
      JoinOne("author", author.value);
      JoinOne("editorial", Str(editorial));
      assert "&" + "author" + "=" + author.value == "&author=" + author.value;
      assert "&" + "editorial" + "=" + Str(editorial) == "&editorial=" + Str(editorial);
    }
  }

  lemma JoinedParams(title: JString, author: JString, editorial: JString)
    ensures Join(Params(title, author, editorial))
         == (if IsEmpty(title) then "" else "&title=" + title.value)
          + (if IsEmpty(author) then "" else "&author=" + author.value)
          + (if IsEmpty(author) then "" else "&editorial=" + Str(editorial))
  {
    var t: seq<(string, string)> := if IsEmpty(title) then [] else [("title", title.value)];
    var ae: seq<(string, string)> :=
      if IsEmpty(author) then [] else [("author", author.value), ("editorial", Str(editorial))];
    assert Params(title, author, editorial) == t + ae;
    JoinAppend(t, ae);
    JoinedTitle(title);
    JoinedAuthor(author, editorial);
  }

  /**
   * The editorial quirk: with an empty author the editorial never reaches the query
   * string, and with a non-empty author it is always appended, even when empty or null.
   */
  lemma EditorialGatedOnAuthor(title: JString, author: JString, editorial: JString, other: JString)
    ensures IsEmpty(author) ==> QueryParams(title, author, editorial) == QueryParams(title, author, other)
    ensures ("editorial", Str(editorial)) in Params(title, author, editorial) <==> !IsEmpty(author)
  {
    EditorialListedWithAuthor(title, author, editorial);
    if IsEmpty(author) {
      assert Params(title, author, editorial) == Params(title, author, other);
      var joined := Join(Params(title, author, editorial));
      var r1 := QueryParams(title, author, editorial);
      var r2 := QueryParams(title, author, other);
      if |joined| > 0 && joined[|joined| - 1] == '&' {
        assert |r1| == |r2|;
        assert r1 == (r1 + "&")[..|r1|] && r2 == (r2 + "&")[..|r2|];
      }
    }
  }

  lemma EditorialListedWithAuthor(title: JString, author: JString, editorial: JString)
    ensures ("editorial", Str(editorial)) in Params(title, author, editorial) <==> !IsEmpty(author)
  {
    var ps := Params(title, author, editorial);
    if !IsEmpty(author) {
      assert ps[|ps| - 1] == ("editorial", Str(editorial));
    } else {
      assert ps == if IsEmpty(title) then [] else [("title", title.value)];
      assert "title" != "editorial";
    }
  }

  /** Index of the first `c` in `s` at or after `from`, or `|s|` when there is none. */
  function IndexOf(s: string, c: char, from: nat): (k: nat)
    requires from <= |s|
    ensures from <= k <= |s|
    ensures forall i :: from <= i < k ==> s[i] != c
    ensures k < |s| ==> s[k] == c
    decreases |s| - from
  {
    if from == |s| || s[from] == c then from else IndexOf(s, c, from + 1)
  }

  lemma {:induction false} IndexOfIs(s: string, c: char, from: nat, k: nat)
    requires from <= k <= |s|
    requires forall i :: from <= i < k ==> s[i] != c
    requires k < |s| ==> s[k] == c
    ensures IndexOf(s, c, from) == k
    decreases k - from
  {
    if from < k {
      IndexOfIs(s, c, from + 1, k);
    }
  }

  /** Reads `&name=value` segments back into pairs: the inverse of `Join`. */
  function Decode(s: string): seq<(string, string)>
    decreases |s|
  {
    if |s| == 0 || s[0] != '&' then []
    else
      var end := IndexOf(s, '&', 1);
      var eq := IndexOf(s[..end], '=', 1);
      [(s[1..eq], if eq < end then s[eq + 1..end] else "")] + Decode(s[end..])
  }

  /** Pairs that survive a round trip: no `&` anywhere and no `=` in a name. */
  predicate Unambiguous(ps: seq<(string, string)>) {
    forall i :: 0 <= i < |ps| ==> '&' !in ps[i].0 && '=' !in ps[i].0 && '&' !in ps[i].1
  }

  /** Decoding peels off one `&name=value` segment at a time. */
  lemma DecodeSegment(name: string, value: string, rest: string)
    requires '&' !in name && '=' !in name && '&' !in value
    requires rest == [] || rest[0] == '&'
    ensures Decode("&" + name + "=" + value + rest) == [(name, value)] + Decode(rest)
  {
    var s := "&" + name + "=" + value + rest;
    var end := 2 + |name| + |value|;
    forall i | 1 <= i < end ensures s[i] != '&' {
      if i <= |name| {
        assert s[i] == name[i - 1];
      } else if i > |name| + 1 {
        assert s[i] == value[i - |name| - 2];
      }
    }
    IndexOfIs(s, '&', 1, end);
    var head := s[..end];
    assert head == "&" + name + "=" + value;
    forall i | 1 <= i < 1 + |name| ensures head[i] != '=' {
      assert head[i] == name[i - 1];
    }
    IndexOfIs(head, '=', 1, 1 + |name|);
    assert s[1..1 + |name|] == name;
    assert s[2 + |name|..end] == value;
    assert s[end..] == rest;
  }

  lemma JoinStartsWithAmpersand(ps: seq<(string, string)>)
    ensures Join(ps) == [] || Join(ps)[0] == '&'
  {
  }

  lemma {:induction false} DecodeJoin(ps: seq<(string, string)>)
    requires Unambiguous(ps)
    ensures Decode(Join(ps)) == ps
  {
    if ps != [] {
      var rest := Join(ps[1..]);
      JoinStartsWithAmpersand(ps[1..]);
      assert Unambiguous(ps[1..]) by {
        forall i | 0 <= i < |ps[1..]| ensures '&' !in ps[1..][i].0 && '=' !in ps[1..][i].0 && '&' !in ps[1..][i].1 {
          assert ps[1..][i] == ps[i + 1];
        }
      }
      DecodeSegment(ps[0].0, ps[0].1, rest);
      DecodeJoin(ps[1..]);
    }
  }

  /** The facet for one bucket: its key, its count cast to `int`, and its refinement URL. */
  function Facet(server: string, b: TermsBucket, queryParams: string): AggregationDetails {
    AggregationDetails(b.key, ToInt32(b.docCount), server + "/book?title=" + b.key + queryParams)
  }

  /** One facet per bucket, in bucket order. */
  function Facets(server: string, buckets: seq<TermsBucket>, queryParams: string): seq<AggregationDetails> {
    if buckets == [] then [] else [Facet(server, buckets[0], queryParams)] + Facets(server, buckets[1..], queryParams)
  }

  lemma {:induction false} FacetsFollowBuckets(server: string, buckets: seq<TermsBucket>, queryParams: string)
    ensures |Facets(server, buckets, queryParams)| == |buckets|
    ensures forall i :: 0 <= i < |buckets| ==> Facets(server, buckets, queryParams)[i] == Facet(server, buckets[i], queryParams)
  {
    if buckets != [] {
      FacetsFollowBuckets(server, buckets[1..], queryParams);
    }
  }

  /** A segment `prefix + value` ends in `&` only if the value or the prefix put it there. */
  lemma SegmentEnd(front: string, prefix: string, value: string)
    requires |prefix| > 0 && prefix[|prefix| - 1] != '&' && '&' !in value
    ensures var s := front + prefix + value; |s| > 0 && s[|s| - 1] != '&'
  {
    var s := front + prefix + value;
    if |value| > 0 {
      assert s[|s| - 1] == value[|value| - 1];
    } else {
      assert s == front + prefix;
      assert s[|s| - 1] == prefix[|prefix| - 1];
    }
  }

  /** With no `&` in the values, nothing is stripped: the query string is exactly `Join(Params)`. */
  lemma QueryParamsUnstripped(title: JString, author: JString, editorial: JString)
    requires title.Some? ==> '&' !in title.value
    requires author.Some? ==> '&' !in author.value
    requires editorial.Some? ==> '&' !in editorial.value
    ensures QueryParams(title, author, editorial) == Join(Params(title, author, editorial))
  {
    JoinedParams(title, author, editorial);
    var ts := if IsEmpty(title) then "" else "&title=" + title.value;
    if !IsEmpty(author) {
      assert '&' !in Str(editorial);
      SegmentEnd(ts + "&author=" + author.value, "&editorial=", Str(editorial));
    } else if !IsEmpty(title) {
      SegmentEnd("", "&title=", title.value);
    }
  }

  /** With no `&` in the values, every pair `Params` lists decodes back unambiguously. */
  lemma ParamsUnambiguous(title: JString, author: JString, editorial: JString)
    requires title.Some? ==> '&' !in title.value
    requires author.Some? ==> '&' !in author.value
    requires editorial.Some? ==> '&' !in editorial.value
    ensures Unambiguous(Params(title, author, editorial))
  {
    var ps := Params(title, author, editorial);
    forall i | 0 <= i < |ps| ensures '&' !in ps[i].0 && '=' !in ps[i].0 && '&' !in ps[i].1 {
      assert ps[i].0 in ["title", "author", "editorial"];
      assert '&' !in Str(editorial);
    }
  }

  /**
   * Every facet URL is the server address, `/book?`, and a query string that decodes to
   * `title=<bucket key>` followed by exactly the pairs `Params` lists, provided no value
   * contains `&`.
   */
  lemma FacetUriDecodes(server: string, b: TermsBucket, title: JString, author: JString, editorial: JString)
    requires '&' !in b.key
    requires title.Some? ==> '&' !in title.value
    requires author.Some? ==> '&' !in author.value
    requires editorial.Some? ==> '&' !in editorial.value
    ensures var uri := Facet(server, b, QueryParams(title, author, editorial)).uri;
            var n := |server| + 6;
            && |uri| >= n && uri[..n] == server + "/book?"
            && Decode("&" + uri[n..]) == [("title", b.key)] + Params(title, author, editorial)
  {
    var ps := Params(title, author, editorial);
    QueryParamsUnstripped(title, author, editorial);
    ParamsUnambiguous(title, author, editorial);
    FacetUriSplits(server, b.key, ps);
    TitleFirstUnambiguous(b.key, ps);
    DecodeJoin([("title", b.key)] + ps);
  }

  lemma FacetUriSplits(server: string, key: string, ps: seq<(string, string)>)
    ensures var uri := server + "/book?title=" + key + Join(ps);
            var n := |server| + 6;
            && |uri| >= n && uri[..n] == server + "/book?"
            && "&" + uri[n..] == Join([("title", key)] + ps)
  {
    var all := [("title", key)] + ps;
    var joined := Join(ps);
    var uri := server + "/book?title=" + key + joined;
    assert uri == server + "/book?" + ("title=" + key + joined);
    var n := |server| + 6;
    assert uri[n..] == "title=" + key + joined;
    assert all[0] == ("title", key);
    assert all[1..] == ps;
  }

  lemma TitleFirstUnambiguous(key: string, ps: seq<(string, string)>)
    requires '&' !in key && Unambiguous(ps)
    ensures Unambiguous([("title", key)] + ps)
  {
    var all := [("title", key)] + ps;
    forall i | 0 <= i < |all| ensures '&' !in all[i].0 && '=' !in all[i].0 && '&' !in all[i].1 {
      if i > 0 { assert all[i] == ps[i - 1]; }
    }
  }

  /** An author without an editorial still emits the editorial pair, with the value "null". */
  lemma QueryParamsNullEditorialExample()
    ensures QueryParams(None, Some("Ana"), None) == "&author=Ana&editorial=null"
  {
    var raw := "" + "&author=Ana" + "&editorial=null";
    assert raw[|raw| - 1] == 'l';
  }

  /** An editorial without an author is dropped from the query string. */
  lemma QueryParamsEditorialOnlyExample()
    ensures QueryParams(Some(""), None, Some("Estupendo")) == ""
  {
  }

  /**
   * The response keeps the engine's hits as they are; without aggregations it has no
   * facets, otherwise exactly one per bucket, in bucket order.
   */
  lemma ResponseFacets(result: SearchHits, server: string, title: JString, author: JString, editorial: JString)
    ensures Response(result, server, title, author, editorial).books == result.hits
    ensures result.titleBuckets.None? ==> Response(result, server, title, author, editorial).aggs == []
    ensures result.titleBuckets.Some? ==>
      var buckets := result.titleBuckets.value;
      var aggs := Response(result, server, title, author, editorial).aggs;
      && |aggs| == |buckets|
      && forall i :: 0 <= i < |buckets| ==>
           aggs[i] == AggregationDetails(buckets[i].key, ToInt32(buckets[i].docCount),
                                         server + "/book?title=" + buckets[i].key + QueryParams(title, author, editorial))
  {
    if result.titleBuckets.Some? {
      FacetsFollowBuckets(server, result.titleBuckets.value, QueryParams(title, author, editorial));
    }
  }

  /** The response `findBooks` assembles from what the engine returned. */
  function Response(result: SearchHits, server: string, title: JString, author: JString, editorial: JString): BooksQueryResponse {
    BooksQueryResponse(
      result.hits,
      if result.titleBuckets.Some? then Facets(server, result.titleBuckets.value, QueryParams(title, author, editorial)) else [])
  }
}
