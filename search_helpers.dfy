/**
 * The RAG orchestration (`SearchHelpers`): the query is expanded into metadata filters and
 * variations, every variation is searched in the vector store and in the keyword index, the
 * hits are reranked, a prompt context is assembled from them, and an answer is generated and
 * judged, with retries, before the response is cached under `rag:{query}`.
 *
 * The language model, the vector store, the keyword index and the document store are the
 * oracles of `Services`. A generation or a relevance verdict may differ from one attempt to
 * the next, so both take the attempt number (counted from 1).
 */
module SearchHelpers {
  import opened Wrappers
  import opened Text
  import opened Models
  import opened Sequences
  import Reranker

  type Hit = DocumentSearchResult

  /** The response cache of the orchestrator; a stored response is its own JSON text. */
  type ResponseCache = map<string, RAGResponse>

  /** The filters passed to the vector store. */
  datatype Filters = Filters(category: string, keywords: string, namedEntities: string)

  datatype Services = Services(
    expandMetadata: string -> Option<Metadata>,
    queryVariations: string -> seq<string>,
    searchVector: (string, Filters) -> seq<Hit>,
    searchKeyword: string -> seq<ElasticSearchDocument>,
    rankingOrder: seq<string>,
    summarize: string -> string,
    documentById: string -> string,
    generate: (string, string, nat) -> string,
    isRelevant: (string, string, nat) -> bool)

  /** `DocumentDataResponse`. */
  datatype DocumentData = DocumentData(documents: seq<Hit>, dictMetaData: Option<Metadata>, queries: seq<string>)

  /** The result of an orchestration request: 404, 400 or 200 with its body. */
  datatype Outcome = NotFound(message: string) | BadRequest(message: string) | Ok(response: RAGResponse)

  const NoDocumentsMessage := "No relevant documents found."
  const RetriesExhaustedMessage := "Failed to generate a relevant response after multiple attempts."
  const EmptyQueryMessage := "Query cannot be empty."

  /** `Environment.NewLine` on the Linux hosts the services run on. */
  const NewLine: char := '\n'

  // ---------------------------------------------------------------------------
  // GetDocumentData
  // ---------------------------------------------------------------------------

  /** `dictMetaData?.GetValueOrDefault(key) as string ?? string.Empty`. */
  function FilterValue(metadata: Option<Metadata>, key: string): (v: string)
    ensures metadata.None? || key !in metadata.value ==> v == ""
    ensures metadata.Some? && key in metadata.value && !metadata.value[key].Text? ==> v == ""
    ensures metadata.Some? && key in metadata.value && metadata.value[key].Text? ==> v == metadata.value[key].s
  {
    if metadata.Some? && key in metadata.value then
      match metadata.value[key]
      case Text(s) => s
      case Other(_) => ""
    else ""
  }

  function QueryFilters(metadata: Option<Metadata>): Filters {
    Filters(FilterValue(metadata, "category"), FilterValue(metadata, "keywords"),
            FilterValue(metadata, "named_entities"))
  }

  /** The lists in order, one after the other. */
  function Flatten<T>(lists: seq<seq<T>>): seq<T>
    decreases |lists|
  {
    if |lists| == 0 then [] else Flatten(lists[..|lists| - 1]) + lists[|lists| - 1]
  }

  lemma {:induction false} FlattenConcat<T>(a: seq<seq<T>>, b: seq<seq<T>>)
    ensures Flatten(a + b) == Flatten(a) + Flatten(b)
    decreases |b|
  {
    if |b| == 0 {
      assert a + b == a;
    } else {
      var init, last := b[..|b| - 1], b[|b| - 1];
      PrefixOfConcat(a, b);
      assert (a + b)[|a + b| - 1] == last;
      FlattenConcat(a, init);
      var x, y := Flatten(a), Flatten(init);
      assert Flatten(a + b) == (x + y) + last;
      assert Flatten(b) == y + last;
      assert (x + y) + last == x + (y + last);
    }
  }

  /** Every element of the flattened list comes from one of the lists, and the length is the
      total length. */
  lemma {:induction false} FlattenMembers<T>(lists: seq<seq<T>>, x: T)
    ensures x in Flatten(lists) <==> exists i :: 0 <= i < |lists| && x in lists[i]
    decreases |lists|
  {
    if |lists| > 0 {
      var init := lists[..|lists| - 1];
      FlattenMembers(init, x);
      if x in lists[|lists| - 1] {
        assert x in Flatten(lists);
      }
      if exists i :: 0 <= i < |lists| && x in lists[i] {
        var i :| 0 <= i < |lists| && x in lists[i];
        if i < |lists| - 1 {
          assert x in init[i];
        }
      }
    }
  }

  /** The vector hits of every variation, in order. */
  function VectorHitsPerVariation(svc: Services, queries: seq<string>, filters: Filters): (r: seq<seq<Hit>>)
    ensures |r| == |queries|
    ensures forall i :: 0 <= i < |queries| ==> r[i] == svc.searchVector(queries[i], filters)
  {
    seq(|queries|, i requires 0 <= i < |queries| => svc.searchVector(queries[i], filters))
  }

  /** The keyword hits of every variation, in order. */
  function KeywordHitsPerVariation(svc: Services, queries: seq<string>): (r: seq<seq<ElasticSearchDocument>>)
    ensures |r| == |queries|
    ensures forall i :: 0 <= i < |queries| ==> r[i] == svc.searchKeyword(queries[i])
  {
    seq(|queries|, i requires 0 <= i < |queries| => svc.searchKeyword(queries[i]))
  }

  /** What `GetDocumentData` returns and the rerank cache afterwards. */
  function DocumentDataSpec(svc: Services, cache: Reranker.RerankCache, query: string, topResults: int)
    : (DocumentData, Reranker.RerankCache)
  {
    var metadata := svc.expandMetadata(query);
    var queries := svc.queryVariations(query);
    var vectorHits := Flatten(VectorHitsPerVariation(svc, queries, QueryFilters(metadata)));
    var keywordHits := Flatten(KeywordHitsPerVariation(svc, queries));
    var key := Reranker.RerankKey(query, topResults);
    var documents := if key in cache then cache[key]
                     else Reranker.RerankResult(vectorHits, keywordHits, query, topResults, true, svc.rankingOrder);
    (DocumentData(documents, metadata, queries), if key in cache then cache else cache[key := documents])
  }

  /** `GetDocumentData`: the per-variation hit lists are appended in order, then reranked with
      LLM reranking enabled. */
  method GetDocumentData(svc: Services, cache: Reranker.RerankCache, query: string, topResults: int)
    returns (data: DocumentData, cache': Reranker.RerankCache)
    ensures (data, cache') == DocumentDataSpec(svc, cache, query, topResults)
  {
    var dictMetaData := svc.expandMetadata(query);
    var filters := QueryFilters(dictMetaData);
    var queries := svc.queryVariations(query);
    var vectorDbResults: seq<Hit> := [];
    var keywordResults: seq<ElasticSearchDocument> := [];
    for i := 0 to |queries|
      invariant vectorDbResults == Flatten(VectorHitsPerVariation(svc, queries, filters)[..i])
      invariant keywordResults == Flatten(KeywordHitsPerVariation(svc, queries)[..i])
    {
      var q := queries[i];
      assert VectorHitsPerVariation(svc, queries, filters)[..i + 1][..i] == VectorHitsPerVariation(svc, queries, filters)[..i];
      assert KeywordHitsPerVariation(svc, queries)[..i + 1][..i] == KeywordHitsPerVariation(svc, queries)[..i];
      vectorDbResults := vectorDbResults + svc.searchVector(q, filters);
      keywordResults := keywordResults + svc.searchKeyword(q);
    }
    assert VectorHitsPerVariation(svc, queries, filters)[..|queries|] == VectorHitsPerVariation(svc, queries, filters);
    assert KeywordHitsPerVariation(svc, queries)[..|queries|] == KeywordHitsPerVariation(svc, queries);
    var distinctResults;
    distinctResults, cache' := Reranker.RerankDocuments(cache, vectorDbResults, keywordResults, query, topResults,
                                                      true, svc.rankingOrder);
    data := DocumentData(distinctResults, dictMetaData, queries);
  }

  /** The lists handed to the reranker: every hit comes from the search of some variation
      (with the filters read from the metadata expansion), and the variations' lists follow
      each other in order. */
  lemma AggregationSpec(svc: Services, queries: seq<string>, filters: Filters, more: seq<string>)
    ensures forall h :: h in Flatten(VectorHitsPerVariation(svc, queries, filters)) <==>
              exists i :: 0 <= i < |queries| && h in svc.searchVector(queries[i], filters)
    ensures Flatten(VectorHitsPerVariation(svc, queries + more, filters))
         == Flatten(VectorHitsPerVariation(svc, queries, filters)) + Flatten(VectorHitsPerVariation(svc, more, filters))
    ensures Flatten(KeywordHitsPerVariation(svc, queries + more))
         == Flatten(KeywordHitsPerVariation(svc, queries)) + Flatten(KeywordHitsPerVariation(svc, more))
  {
    forall h ensures h in Flatten(VectorHitsPerVariation(svc, queries, filters)) <==>
              exists i :: 0 <= i < |queries| && h in svc.searchVector(queries[i], filters)
    {
      FlattenMembers(VectorHitsPerVariation(svc, queries, filters), h);
    }
    assert VectorHitsPerVariation(svc, queries + more, filters)
        == VectorHitsPerVariation(svc, queries, filters) + VectorHitsPerVariation(svc, more, filters);
    FlattenConcat(VectorHitsPerVariation(svc, queries, filters), VectorHitsPerVariation(svc, more, filters));
    assert KeywordHitsPerVariation(svc, queries + more)
        == KeywordHitsPerVariation(svc, queries) + KeywordHitsPerVariation(svc, more);
    FlattenConcat(KeywordHitsPerVariation(svc, queries), KeywordHitsPerVariation(svc, more));
  }

  /** The three vector-store filters are the string values of `category`, `keywords` and
      `named_entities`, and empty when the expansion failed, lacks the key or holds another
      kind of value there. */
  lemma QueryFiltersSpec(metadata: Option<Metadata>)
    ensures var f := QueryFilters(metadata);
      && (metadata.None? ==> f == Filters("", "", ""))
      && (metadata.Some? && "category" !in metadata.value ==> f.category == "")
      && (metadata.Some? && "category" in metadata.value && metadata.value["category"].Other? ==>
            f.category == "")
      && (metadata.Some? && "category" in metadata.value && metadata.value["category"].Text? ==>
            f.category == metadata.value["category"].s)
      && (metadata.Some? && "keywords" !in metadata.value ==> f.keywords == "")
      && (metadata.Some? && "keywords" in metadata.value && metadata.value["keywords"].Other? ==>
            f.keywords == "")
      && (metadata.Some? && "keywords" in metadata.value && metadata.value["keywords"].Text? ==>
            f.keywords == metadata.value["keywords"].s)
      && (metadata.Some? && "named_entities" !in metadata.value ==> f.namedEntities == "")
      && (metadata.Some? && "named_entities" in metadata.value && metadata.value["named_entities"].Other? ==>
            f.namedEntities == "")
      && (metadata.Some? && "named_entities" in metadata.value && metadata.value["named_entities"].Text? ==>
            f.namedEntities == metadata.value["named_entities"].s)
  {
  }

  // ---------------------------------------------------------------------------
  // GetRagContext
  // ---------------------------------------------------------------------------

  /** The line a hit contributes, or `None` when it is skipped: the summary of a source
      document's text, a chunk's own text (a null text appends an empty line), and the
      document a chunk question was generated from. */
  function Body(svc: Services, h: Hit): Option<string> {
    match h.dataType
    case SourceDocument =>
      if h.originalText.None? then None else Some(svc.summarize(h.originalText.value))
    case Chunk => Some(h.originalText.GetOr(""))
    case ChunkSummary => Some(h.originalText.GetOr(""))
    case ChunkQuesiton =>
      if h.originalChunkDocumentId.None? then None else Some(svc.documentById(h.originalChunkDocumentId.value))
  }

  /** A body line followed by four empty lines; a skipped hit contributes nothing. */
  function Section(svc: Services, h: Hit): string {
    match Body(svc, h)
    case None => ""
    case Some(b) => b + [NewLine] + [NewLine, NewLine, NewLine, NewLine]
  }

  /** What `GetRagContext(documents)` returns. */
  function RagContext(svc: Services, documents: seq<Hit>): string
    decreases |documents|
  {
    if |documents| == 0 then ""
    else RagContext(svc, documents[..|documents| - 1]) + Section(svc, documents[|documents| - 1])
  }

  /** `GetRagContext`: the `StringBuilder` is the string `sb`. */
  method GetRagContext(svc: Services, documents: seq<Hit>) returns (context: string)
    ensures context == RagContext(svc, documents)
  {
    var sb := "";
    for i := 0 to |documents|
      invariant sb == RagContext(svc, documents[..i])
    {
      var result := documents[i];
      RagContextStep(svc, documents, i);
      ghost var before := sb;
      match result.dataType {
        case SourceDocument =>
          if result.originalText.None? {
            continue;
          }
          sb := sb + svc.summarize(result.originalText.value) + [NewLine];
        case Chunk =>
          sb := sb + result.originalText.GetOr("") + [NewLine];
        case ChunkSummary =>
          sb := sb + result.originalText.GetOr("") + [NewLine];
        case ChunkQuesiton =>
          if result.originalChunkDocumentId.None? {
            continue;
          }
          sb := sb + svc.documentById(result.originalChunkDocumentId.value) + [NewLine];
      }
      assert sb == before + Body(svc, result).value + [NewLine];
      sb := sb + [NewLine];
      sb := sb + [NewLine];
      sb := sb + [NewLine];
      sb := sb + [NewLine];
      SectionAppended(before, Body(svc, result).value);
    }
    assert documents[..|documents|] == documents;
    context := sb;
  }

  lemma RagContextStep(svc: Services, documents: seq<Hit>, i: nat)
    requires i < |documents|
    ensures RagContext(svc, documents[..i + 1]) == RagContext(svc, documents[..i]) + Section(svc, documents[i])
  {
    assert documents[..i + 1][..i] == documents[..i];
  }

  lemma SectionAppended(before: string, b: string)
    ensures before + b + [NewLine] + [NewLine] + [NewLine] + [NewLine] + [NewLine]
         == before + (b + [NewLine] + [NewLine, NewLine, NewLine, NewLine])
  {
  }

  /** The context keeps the order of the hits: the context of two lists one after the other is
      the two contexts one after the other. */
  lemma {:induction false} RagContextConcat(svc: Services, a: seq<Hit>, b: seq<Hit>)
    ensures RagContext(svc, a + b) == RagContext(svc, a) + RagContext(svc, b)
    decreases |b|
  {
    if |b| == 0 {
      assert a + b == a;
    } else {
      var init, last := b[..|b| - 1], b[|b| - 1];
      PrefixOfConcat(a, b);
      assert (a + b)[|a + b| - 1] == last;
      RagContextConcat(svc, a, init);
      RagContextLast(svc, a + b);
      RagContextLast(svc, b);
      ConcatAssoc(RagContext(svc, a), RagContext(svc, init), Section(svc, last));
    }
  }

  lemma RagContextLast(svc: Services, documents: seq<Hit>)
    requires |documents| > 0
    ensures RagContext(svc, documents)
         == RagContext(svc, documents[..|documents| - 1]) + Section(svc, documents[|documents| - 1])
  {
  }

  lemma RagContextSingle(svc: Services, h: Hit)
    ensures RagContext(svc, [h]) == Section(svc, h)
  {
    assert [h][..0] == [];
  }

  /** A hit's section, split into lines, is its body line and then four empty lines (the last
      piece is what follows the final line break), as long as the body is a single line. A
      skipped hit adds nothing to the context. */
  lemma SectionLines(svc: Services, h: Hit)
    ensures Body(svc, h).None? ==> Section(svc, h) == ""
    ensures Body(svc, h).Some? && (forall j :: 0 <= j < |Body(svc, h).value| ==> Body(svc, h).value[j] != NewLine) ==>
      SplitWhere(Section(svc, h), c => c == NewLine) == [Body(svc, h).value, "", "", "", "", ""]
  {
    if Body(svc, h).Some? && (forall j :: 0 <= j < |Body(svc, h).value| ==> Body(svc, h).value[j] != NewLine) {
      var b := Body(svc, h).value;
      var pieces := [b, "", "", "", "", ""];
      assert Join(pieces, NewLine) == Section(svc, h) by {
        assert Join(pieces[5..], NewLine) == "";
        assert Join(pieces[4..], NewLine) == [NewLine];
        assert Join(pieces[3..], NewLine) == [NewLine, NewLine];
        assert Join(pieces[2..], NewLine) == [NewLine, NewLine, NewLine];
        assert Join(pieces[1..], NewLine) == [NewLine, NewLine, NewLine, NewLine];
      }
      SplitJoin(pieces, NewLine, c => c == NewLine);
    }
  }

  /** Which body each kind of hit contributes. */
  lemma BodySpec(svc: Services, h: Hit)
    ensures h.dataType == SourceDocument && h.originalText.None? ==> Body(svc, h).None?
    ensures h.dataType == ChunkQuesiton && h.originalChunkDocumentId.None? ==> Body(svc, h).None?
    ensures (h.dataType == Chunk || h.dataType == ChunkSummary) && h.originalText.Some? ==>
              Body(svc, h) == h.originalText
    ensures h.dataType == SourceDocument && h.originalText.Some? ==>
              Body(svc, h) == Some(svc.summarize(h.originalText.value))
    ensures h.dataType == ChunkQuesiton && h.originalChunkDocumentId.Some? ==>
              Body(svc, h) == Some(svc.documentById(h.originalChunkDocumentId.value))
  {
  }

  // ---------------------------------------------------------------------------
  // RagSearch
  // ---------------------------------------------------------------------------

  /** Where the retry loop stopped: the value of `attempts`, the last answer, and how many
      generations were requested. */
  datatype Retry = Retry(attempts: int, answer: string, generations: nat)

  /** The retry loop from attempt number `attempts` on, with `answer` the last answer. */
  function RetryFrom(svc: Services, context: string, query: string, maxRetries: int, attempts: nat, answer: string,
                     generations: nat): Retry
    decreases maxRetries - attempts
  {
    if attempts >= maxRetries then Retry(attempts, answer, generations)
    else
      var next := svc.generate(context, query, generations + 1);
      if svc.isRelevant(query, next, generations + 1) then Retry(attempts, next, generations + 1)
      else RetryFrom(svc, context, query, maxRetries, attempts + 1, next, generations + 1)
  }

  function RetryLoop(svc: Services, context: string, query: string, maxRetries: int): Retry {
    RetryFrom(svc, context, query, maxRetries, 0, "", 0)
  }

  /** What `RagSearch` returns, with the generation count and both caches afterwards. */
  datatype SearchRun = SearchRun(outcome: Outcome, generations: nat, rerankCache: Reranker.RerankCache,
                                 responseCache: ResponseCache)

  function RagSearchSpec(svc: Services, rerankCache: Reranker.RerankCache, responseCache: ResponseCache,
                         query: string, cacheKey: string, topResults: int, maxRetries: int): SearchRun
  {
    var call := DocumentDataSpec(svc, rerankCache, query, topResults);
    var data, rerankCache' := call.0, call.1;
    if |data.documents| == 0 then SearchRun(NotFound(NoDocumentsMessage), 0, rerankCache', responseCache)
    else
      var context := RagContext(svc, data.documents);
      var retry := RetryLoop(svc, context, query, maxRetries);
      if retry.attempts == maxRetries then
        SearchRun(BadRequest(RetriesExhaustedMessage), retry.generations, rerankCache', responseCache)
      else
        var response := SuccessResponse(query, data.documents, context, retry.answer);
        SearchRun(Ok(response), retry.generations, rerankCache', responseCache[cacheKey := response])
  }

  function SuccessResponse(query: string, documents: seq<Hit>, context: string, answer: string): RAGResponse {
    RAGResponse(Some(query), Some(documents), Some(answer), Some(context))
  }

  /** `SetCacheAndReturnOK`: the response is stored under the key and returned with 200. */
  method SetCacheAndReturnOK(cache: ResponseCache, cacheKey: string, response: RAGResponse)
    returns (outcome: Outcome, cache': ResponseCache)
    ensures outcome == Ok(response)
    ensures cache' == cache[cacheKey := response]
  {
    cache' := cache[cacheKey := response];
    outcome := Ok(response);
  }

  /** The `while (attempts < maxRetries)` loop of `RagSearch`: generate, judge, and retry on an
      irrelevant answer. `generations` counts the calls of the generation model. */
  method GenerateWithRetries(svc: Services, context: string, query: string, maxRetries: int)
    returns (attempts: int, llmResponse: string, generations: nat)
    ensures Retry(attempts, llmResponse, generations) == RetryLoop(svc, context, query, maxRetries)
  {
    llmResponse := "";
    attempts := 0;
    generations := 0;
    while attempts < maxRetries
      invariant 0 <= attempts && generations == attempts
      invariant RetryLoop(svc, context, query, maxRetries)
             == RetryFrom(svc, context, query, maxRetries, attempts, llmResponse, generations)
      decreases maxRetries - attempts
    {
      llmResponse := svc.generate(context, query, generations + 1);
      generations := generations + 1;
      if svc.isRelevant(query, llmResponse, generations) {
        break;
      }
      attempts := attempts + 1;
    }
  }

  /** `RagSearch`. */
  method RagSearch(svc: Services, rerankCache: Reranker.RerankCache, responseCache: ResponseCache,
                   query: string, cacheKey: string, topResults: int, maxRetries: int)
    returns (outcome: Outcome, generations: nat, rerankCache': Reranker.RerankCache, responseCache': ResponseCache)
    ensures SearchRun(outcome, generations, rerankCache', responseCache')
         == RagSearchSpec(svc, rerankCache, responseCache, query, cacheKey, topResults, maxRetries)
  {
    var data;
    data, rerankCache' := GetDocumentData(svc, rerankCache, query, topResults);
    if |data.documents| == 0 {
      RagSearchSpecSteps(svc, rerankCache, responseCache, query, cacheKey, topResults, maxRetries,
                         data, rerankCache', "", Retry(0, "", 0));
      return NotFound(NoDocumentsMessage), 0, rerankCache', responseCache;
    }
    var context := GetRagContext(svc, data.documents);
    var attempts, llmResponse;
    attempts, llmResponse, generations := GenerateWithRetries(svc, context, query, maxRetries);
    RagSearchSpecSteps(svc, rerankCache, responseCache, query, cacheKey, topResults, maxRetries,
                       data, rerankCache', context, Retry(attempts, llmResponse, generations));
    if attempts == maxRetries {
      return BadRequest(RetriesExhaustedMessage), generations, rerankCache', responseCache;
    }
    var response := RAGResponse(Some(query), Some(data.documents), Some(llmResponse), Some(context));
    outcome, responseCache' := SetCacheAndReturnOK(responseCache, cacheKey, response);
  }

  /** `RagSearchSpec` in the steps `RagSearch` takes: the document data, then the context and
      the retry loop on them. */
  lemma RagSearchSpecSteps(svc: Services, rerankCache: Reranker.RerankCache, responseCache: ResponseCache,
                           query: string, cacheKey: string, topResults: int, maxRetries: int,
                           data: DocumentData, rerankCache': Reranker.RerankCache, context: string, retry: Retry)
    requires (data, rerankCache') == DocumentDataSpec(svc, rerankCache, query, topResults)
    requires |data.documents| > 0 ==> context == RagContext(svc, data.documents)
    requires |data.documents| > 0 ==> retry == RetryLoop(svc, context, query, maxRetries)
    ensures RagSearchSpec(svc, rerankCache, responseCache, query, cacheKey, topResults, maxRetries)
         == if |data.documents| == 0 then SearchRun(NotFound(NoDocumentsMessage), 0, rerankCache', responseCache)
            else if retry.attempts == maxRetries then
              SearchRun(BadRequest(RetriesExhaustedMessage), retry.generations, rerankCache', responseCache)
            else
              var response := RAGResponse(Some(query), Some(data.documents), Some(retry.answer), Some(context));
              SearchRun(Ok(response), retry.generations, rerankCache', responseCache[cacheKey := response])
  {
  }

  // --- properties of the retry loop ---

  /** The loop stops either on a relevant answer before the last attempt is used up, or with
      `attempts == maxRetries` after exactly `maxRetries` irrelevant answers; it never requests
      more than `max(maxRetries, 0)` generations. */
  lemma {:induction false} RetryFromBounds(svc: Services, context: string, query: string, maxRetries: int,
                                           attempts: nat, answer: string)
    requires attempts <= maxRetries
    ensures var r := RetryFrom(svc, context, query, maxRetries, attempts, answer, attempts);
      && attempts <= r.attempts <= maxRetries
      && r.generations <= maxRetries
      && (r.attempts == maxRetries ==> r.generations == maxRetries)
      && (r.attempts < maxRetries ==> r.generations == r.attempts + 1 && svc.isRelevant(query, r.answer, r.generations)
                                      && r.answer == svc.generate(context, query, r.generations))
    decreases maxRetries - attempts
  {
    if attempts < maxRetries {
      var next := svc.generate(context, query, attempts + 1);
      if !svc.isRelevant(query, next, attempts + 1) {
        RetryFromBounds(svc, context, query, maxRetries, attempts + 1, next);
      }
    }
  }

  /** If every answer is judged irrelevant, exactly `maxRetries` generations happen and the
      loop reports exhaustion. */
  lemma {:induction false} NeverRelevant(svc: Services, context: string, query: string, maxRetries: int,
                                         attempts: nat, answer: string)
    requires attempts <= maxRetries
    requires forall k: nat, a :: !svc.isRelevant(query, a, k)
    ensures RetryFrom(svc, context, query, maxRetries, attempts, answer, attempts).attempts == maxRetries
    ensures RetryFrom(svc, context, query, maxRetries, attempts, answer, attempts).generations == maxRetries
    decreases maxRetries - attempts
  {
    if attempts < maxRetries {
      NeverRelevant(svc, context, query, maxRetries, attempts + 1, svc.generate(context, query, attempts + 1));
    }
  }

  /** True when the k-th generated answer is the first one judged relevant. */
  predicate FirstRelevantAt(svc: Services, context: string, query: string, k: nat) {
    && k >= 1
    && svc.isRelevant(query, svc.generate(context, query, k), k)
    && forall j: nat :: 1 <= j < k ==> !svc.isRelevant(query, svc.generate(context, query, j), j)
  }

  /** If the k-th answer (k <= maxRetries) is the first relevant one, exactly k generations
      happen and the loop ends with that answer. */
  lemma {:induction false} RelevantAt(svc: Services, context: string, query: string, maxRetries: int, k: nat,
                                      attempts: nat, answer: string)
    requires FirstRelevantAt(svc, context, query, k) && k <= maxRetries && attempts < k
    ensures var r := RetryFrom(svc, context, query, maxRetries, attempts, answer, attempts);
      r.generations == k && r.attempts == k - 1 && r.answer == svc.generate(context, query, k)
    decreases k - attempts
  {
    if attempts + 1 < k {
      RelevantAt(svc, context, query, maxRetries, k, attempts + 1, svc.generate(context, query, attempts + 1));
    }
  }

  // --- properties of the whole search ---

  /** No documents: 404, no generation, nothing written to the response cache. */
  lemma NoDocumentsNotFound(svc: Services, rerankCache: Reranker.RerankCache, responseCache: ResponseCache,
                            query: string, cacheKey: string, topResults: int, maxRetries: int)
    requires |DocumentDataSpec(svc, rerankCache, query, topResults).0.documents| == 0
    ensures var run := RagSearchSpec(svc, rerankCache, responseCache, query, cacheKey, topResults, maxRetries);
      run.outcome == NotFound(NoDocumentsMessage) && run.generations == 0 && run.responseCache == responseCache
  {
  }

  /** With documents, the outcome is 400 exactly when the loop used up its attempts, and then
      nothing is cached; otherwise it is 200 with the reranked documents, the assembled context
      and the last answer, and that response is cached under `cacheKey`, other keys untouched.
      At most `max(maxRetries, 0)` generations happen. */
  lemma RagSearchOutcomes(svc: Services, rerankCache: Reranker.RerankCache, responseCache: ResponseCache,
                          query: string, cacheKey: string, topResults: int, maxRetries: int)
    requires |DocumentDataSpec(svc, rerankCache, query, topResults).0.documents| > 0
    ensures var run := RagSearchSpec(svc, rerankCache, responseCache, query, cacheKey, topResults, maxRetries);
            var documents := DocumentDataSpec(svc, rerankCache, query, topResults).0.documents;
            var context := RagContext(svc, documents);
      && (run.outcome.BadRequest? ==> run.responseCache == responseCache && run.outcome.message == RetriesExhaustedMessage)
      && (run.outcome.Ok? ==>
            && run.outcome.response.query == Some(query)
            && run.outcome.response.retrievedDocuments == Some(documents)
            && run.outcome.response.promptContext == Some(context)
            && run.responseCache == responseCache[cacheKey := run.outcome.response])
      && !run.outcome.NotFound?
      && run.generations <= (if maxRetries < 0 then 0 else maxRetries)
  {
    var documents := DocumentDataSpec(svc, rerankCache, query, topResults).0.documents;
    if maxRetries >= 0 {
      RetryFromBounds(svc, RagContext(svc, documents), query, maxRetries, 0, "");
    }
  }

  /** If every answer is irrelevant and `maxRetries >= 1`, exactly `maxRetries` generations
      happen and the result is the 400 failure. */
  lemma AlwaysIrrelevantFails(svc: Services, rerankCache: Reranker.RerankCache, responseCache: ResponseCache,
                              query: string, cacheKey: string, topResults: int, maxRetries: int)
    requires |DocumentDataSpec(svc, rerankCache, query, topResults).0.documents| > 0
    requires maxRetries >= 1
    requires forall k: nat, a :: !svc.isRelevant(query, a, k)
    ensures var run := RagSearchSpec(svc, rerankCache, responseCache, query, cacheKey, topResults, maxRetries);
      run.outcome == BadRequest(RetriesExhaustedMessage) && run.generations == maxRetries
      && run.responseCache == responseCache
  {
    var documents := DocumentDataSpec(svc, rerankCache, query, topResults).0.documents;
    NeverRelevant(svc, RagContext(svc, documents), query, maxRetries, 0, "");
  }

  /** If the k-th answer (1 <= k <= maxRetries) is the first relevant one, exactly k
      generations happen and the 200 response carries that answer. */
  lemma FirstRelevantSucceeds(svc: Services, rerankCache: Reranker.RerankCache, responseCache: ResponseCache,
                              query: string, cacheKey: string, topResults: int, maxRetries: int, k: nat)
    requires |DocumentDataSpec(svc, rerankCache, query, topResults).0.documents| > 0
    requires FirstRelevantAt(svc, RagContext(svc, DocumentDataSpec(svc, rerankCache, query, topResults).0.documents), query, k)
    requires k <= maxRetries
    ensures var run := RagSearchSpec(svc, rerankCache, responseCache, query, cacheKey, topResults, maxRetries);
            var context := RagContext(svc, DocumentDataSpec(svc, rerankCache, query, topResults).0.documents);
      && run.generations == k
      && run.outcome.Ok?
      && run.outcome.response.llmResponse == Some(svc.generate(context, query, k))
      && cacheKey in run.responseCache && run.responseCache[cacheKey] == run.outcome.response
  {
    var documents := DocumentDataSpec(svc, rerankCache, query, topResults).0.documents;
    RelevantAt(svc, RagContext(svc, documents), query, maxRetries, k, 0, "");
  }

  /** `maxRetries == 0` fails without generating anything; a negative `maxRetries` skips the
      loop, yet `attempts` (0) differs from it, so the result is 200 with an empty answer. */
  lemma MaxRetriesEdgeCases(svc: Services, rerankCache: Reranker.RerankCache, responseCache: ResponseCache,
                            query: string, cacheKey: string, topResults: int, maxRetries: int)
    requires |DocumentDataSpec(svc, rerankCache, query, topResults).0.documents| > 0
    requires maxRetries <= 0
    ensures var run := RagSearchSpec(svc, rerankCache, responseCache, query, cacheKey, topResults, maxRetries);
      && run.generations == 0
      && (maxRetries == 0 ==> run.outcome == BadRequest(RetriesExhaustedMessage) && run.responseCache == responseCache)
      && (maxRetries < 0 ==> run.outcome.Ok? && run.outcome.response.llmResponse == Some(""))
  {
  }

  // ---------------------------------------------------------------------------
  // The request handler that owns the response cache
  // ---------------------------------------------------------------------------

  /** `$"rag:{query}"`. */
  function RagKey(query: string): string {
    "rag:" + query
  }

  /** Response-cache keys and rerank-cache keys never coincide, and different queries have
      different response-cache keys. */
  lemma RagKeySpec(q1: string, q2: string, q: string, topResults: int)
    ensures RagKey(q1) == RagKey(q2) ==> q1 == q2
    ensures RagKey(q) != Reranker.RerankKey(q, topResults)
  {
    assert RagKey(q)[1] == 'a';
    assert Reranker.RerankKey(q, topResults)[1] == 'e';
    if RagKey(q1) == RagKey(q2) {
      assert q1 == RagKey(q1)[4..];
    }
  }

  /** `string.IsNullOrWhiteSpace` for a non-null string. */
  predicate IsBlank(s: string) {
    forall i :: 0 <= i < |s| ==> IsWhiteSpace(s[i])
  }

  const DefaultMaxRetries := 3

  function SearchWithRagSpec(svc: Services, rerankCache: Reranker.RerankCache, responseCache: ResponseCache,
                             query: string, topResults: int): SearchRun
  {
    if IsBlank(query) then SearchRun(BadRequest(EmptyQueryMessage), 0, rerankCache, responseCache)
    else if RagKey(query) in responseCache then SearchRun(Ok(responseCache[RagKey(query)]), 0, rerankCache, responseCache)
    else RagSearchSpec(svc, rerankCache, responseCache, query, RagKey(query), topResults, DefaultMaxRetries)
  }

  /** `SearchWithRAG`: a blank query is refused, a cached response is returned as it is, and
      otherwise `RagSearch` runs with the key `rag:{query}` and three attempts. */
  method SearchWithRAG(svc: Services, rerankCache: Reranker.RerankCache, responseCache: ResponseCache,
                       query: string, topResults: int)
    returns (outcome: Outcome, generations: nat, rerankCache': Reranker.RerankCache, responseCache': ResponseCache)
    ensures SearchRun(outcome, generations, rerankCache', responseCache')
         == SearchWithRagSpec(svc, rerankCache, responseCache, query, topResults)
  {
    if IsBlank(query) {
      return BadRequest(EmptyQueryMessage), 0, rerankCache, responseCache;
    }
    var cacheKey := RagKey(query);
    if cacheKey in responseCache {
      return Ok(responseCache[cacheKey]), 0, rerankCache, responseCache;
    }
    outcome, generations, rerankCache', responseCache' :=
      RagSearch(svc, rerankCache, responseCache, query, cacheKey, topResults, DefaultMaxRetries);
  }

  /** The key `RagSearch` writes is the key `SearchWithRAG` reads: after a 200 the same query
      is answered from the cache with the same response and no generation, whatever the
      services answer the second time. */
  lemma SecondRequestServedFromCache(svc: Services, svc2: Services, rerankCache: Reranker.RerankCache,
                                     responseCache: ResponseCache, query: string, topResults: int, topResults2: int)
    requires SearchWithRagSpec(svc, rerankCache, responseCache, query, topResults).outcome.Ok?
    ensures var first := SearchWithRagSpec(svc, rerankCache, responseCache, query, topResults);
            var second := SearchWithRagSpec(svc2, first.rerankCache, first.responseCache, query, topResults2);
      second.outcome == first.outcome && second.generations == 0 && second.responseCache == first.responseCache
  {
    var key := RagKey(query);
    if key !in responseCache {
      var run := RagSearchSpec(svc, rerankCache, responseCache, query, key, topResults, DefaultMaxRetries);
      RagSearchWritesOnSuccess(svc, rerankCache, responseCache, query, key, topResults, DefaultMaxRetries);
      assert run.responseCache[key] == run.outcome.response;
    }
  }

  /** A 200 from `RagSearch` is cached under its key. */
  lemma RagSearchWritesOnSuccess(svc: Services, rerankCache: Reranker.RerankCache, responseCache: ResponseCache,
                                 query: string, cacheKey: string, topResults: int, maxRetries: int)
    ensures var run := RagSearchSpec(svc, rerankCache, responseCache, query, cacheKey, topResults, maxRetries);
      run.outcome.Ok? ==> run.responseCache == responseCache[cacheKey := run.outcome.response]
  {
    var call := DocumentDataSpec(svc, rerankCache, query, topResults);
    if |call.0.documents| > 0 {
      var context := RagContext(svc, call.0.documents);
      var retry := RetryLoop(svc, context, query, maxRetries);
      if retry.attempts != maxRetries {
        var response := SuccessResponse(query, call.0.documents, context, retry.answer);
        assert RagSearchSpec(svc, rerankCache, responseCache, query, cacheKey, topResults, maxRetries)
            == SearchRun(Ok(response), retry.generations, call.1, responseCache[cacheKey := response]);
      }
    }
  }
}
