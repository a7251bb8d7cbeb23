# Retrieval core of the smart document system

This project models the retrieval side of a retrieval-augmented generation (RAG) service in
Dafny, and proves properties of the model. It also covers three small helpers of the service.

The retrieval side works as follows:

1. A query is expanded by a language model into metadata filters and query variations.
2. Each variation is searched in a vector store and in a keyword index.
3. The hits are reranked:
   - keyword hits are converted to search results and merged with the vector hits by identifier;
   - each hit is rescored with a hybrid score (closeness, query-word overlap, metadata relevance);
   - the hits are sorted by descending score, cut to `topResults`, and optionally reordered by
     a ranking list that the language model returns.
4. The reranking is memoised under `rerank:{query}:{topResults}`.
5. A prompt context is assembled from the reranked hits.
6. An answer is generated and judged for relevance, with up to `maxRetries` attempts.
7. A successful response is cached under `rag:{query}`. The search endpoint checks that key
   before it runs the pipeline.

The helpers are:

- a bag-of-words embedder. It keeps a vocabulary that persists across calls and gives each new
  token the slot `vocab.Count % 1024`, then fills and normalises a count vector;
- the tokenizer and the pad/truncate step of an ONNX sentence embedder. The text is lower-cased,
  each run of non-word characters becomes one space, and each UTF-8 byte is one token. The
  tokens go into three arrays of fixed length 512;
- the text extractor for uploads. It dispatches on the lower-cased file extension, joins the
  text of PDF pages, and normalises HTML white space.

Modules, one file each:

| file | module | models |
|---|---|---|
| wrappers.dfy | `Wrappers` | `Option` and `Result` |
| text.dfy | `Text` | character classes, lower-casing, substring search, split/join, trim, collapsing runs of a character class, decimal formatting |
| sequences.dfy | `Sequences` | first-occurrence deduplication |
| models.dfy | `Models` | `DocumentSearchResult`, `RagDataType` (with the system's own misspelling `ChunkQuesiton`), `ElasticSearchDocument`, `RAGResponse`; nullable members are `Option`s |
| stable_sort.dfy | `StableSort` | the stable sort behind LINQ `OrderBy` and `OrderByDescending` |
| reranker.dfy | `Reranker` | `RerankerService` |
| search_helpers.dfy | `SearchHelpers` | `SearchHelpers` and the cache link in `SearchController.SearchWithRAG` |
| tfidf.dfy | `Tfidf` | `TfidfEmbeddingService`, as a class whose vocabulary field persists across calls |
| onnx.dfy | `Onnx` | the tokenizer and the padding loop of `OnnxEmbeddingService` |
| file_processor.dfy | `FileProcessing` | `FileProcessor` |

Each operation that works step by step in the system has a method with that loop:
- `MergeResults` fills a dictionary;
- `GetRagContext` appends to a string builder;
- `RagSearch` runs its retry loop;
- `GetDocumentData` appends per-variation results;
- `GenerateEmbeddingAsync` counts tokens into an array;
- the ONNX padding loop fills three arrays;
- `ExtractTextFromPdf` appends page texts.

Each such method is proved equal to a specification function, and the properties are lemmas
about those functions.

External services are parameters:
- the language model (metadata expansion, query variations, generation, relevance verdicts,
  summaries, ranking order), the vector store, the keyword index and the document store are
  the oracles of `SearchHelpers.Services`. A generation and a relevance verdict take the
  attempt number, so they may differ from one attempt to the next;
- the two caches (Redis) are maps that go in and come out of each call. JSON serialisation is
  treated as the identity;
- the square root used by `Normalize` is a parameter `sqrt`;
- what the document libraries read from a file (PDF page texts, Word body text, file text,
  OCR text, HTML inner text) is the value `FileProcessing.FileContents`.

### System behaviour that differs from a natural reading

The model follows the code in each of these cases:

- `MergeResults` raises the score of a known identifier to the larger of the two scores. The
  next step, `ComputeHybridScore`, then overwrites every score. So the merged score never
  affects the ranking (`Reranker.HeuristicRankingSpec`: every score is the hit's own hybrid
  score).
- `LLMRerank` orders the hits by `rankedOrder.IndexOf(r.Id)`. An identifier missing from the
  ranking list has index -1, so it sorts before all listed identifiers, not after them
  (`Reranker.LlmOrderSpec`).
- Keyword hits keep the `DocumentSearchResult` defaults: distance 0, kind `SourceDocument`, no
  metadata. Their hybrid closeness term is therefore the largest possible, 1.
- With `maxRetries < 0` the retry loop does not run, but `attempts` (0) differs from
  `maxRetries`, so `RagSearch` returns 200 with an empty answer
  (`SearchHelpers.MaxRetriesEdgeCases`).
- `query.Split(' ')` keeps empty pieces, and every text contains the empty string. So the empty
  query matches every non-null text once (`Reranker.EmptyQueryMatchesOnce`).
- `Dictionary.Values` enumeration order is not documented by .NET. The model takes insertion
  order, which is what .NET does when nothing is removed. Tie order among equal scores is then
  that of first appearance, vector hits first.

## Model

| member | source | states |
|---|---|---|
| Reranker.RerankKeyInjective | xshared/RerankerService.cs:22 | two calls share a rerank cache entry only when their query and `topResults` are both equal |
| Reranker.RerankDocuments | xshared/RerankerService.cs:15-55 | on a cache hit the stored list is returned and the cache is unchanged; on a miss the result is the merged, rescored, sorted, cut and optionally LLM-ordered list, and it is stored under `rerank:{query}:{topResults}` |
| Reranker.ConvertedIds | xshared/RerankerService.cs:29-33 | the converted keyword hits carry exactly the identifiers of the keyword documents |
| Reranker.MergeWithKeywordDocs | xshared/RerankerService.cs:29-74 | every input identifier has an entry after the merge; a vector identifier's entry is its first vector hit, with score max(score, 0.5) when a keyword document shares it; any other entry is the converted keyword document, with its content, score 0.5, distance 0, kind `SourceDocument` and no metadata |
| Reranker.MergeResults | xshared/RerankerService.cs:57-77 | the two dictionary-filling loops return the list `Merge` specifies; a list of keys in insertion order stands for the dictionary's enumeration order |
| Reranker.MergeIds | xshared/RerankerService.cs:57-77 | the merged identifiers are those of the vector hits then the keyword hits, each once, in order of first occurrence |
| Reranker.MergeDistinctAndComplete | xshared/RerankerService.cs:57-77 | no identifier occurs twice among the merged hits, and an identifier is merged exactly when it occurs in one of the inputs |
| Reranker.AddVectorHitsFirstKept | xshared/RerankerService.cs:60-64 | the first vector hit with a new identifier becomes its entry; later hits with that identifier are ignored |
| Reranker.AddKeywordHitsEntry | xshared/RerankerService.cs:66-70 | an existing entry keeps its position and every field but its score, which becomes the largest of its own and the matching keyword scores |
| Reranker.MergeVectorEntry | xshared/RerankerService.cs:57-74 | the entry of a vector identifier is its first vector hit with its score raised to the largest matching keyword score |
| Reranker.MergeKeywordEntry | xshared/RerankerService.cs:66-74 | the entry of an identifier that only keyword hits carry is its first keyword hit with the largest of their scores |
| Reranker.MaxScoreUniform | xshared/RerankerService.cs:69 | when every keyword hit scores the same `c`, the merged score is max(s0, c) if the identifier occurs and s0 otherwise |
| Reranker.KeywordMatchCountSpec | xshared/RerankerService.cs:87-89 | the keyword match count is the number of pieces of `query.Split(' ')` found in the text ignoring case (empty pieces included); it is 0 for a null text and at most the number of pieces |
| Reranker.CountContainedIsCardinality | xshared/RerankerService.cs:88 | the counting fold equals the size of the set of matching piece positions |
| Reranker.EmptyQueryMatchesOnce | xshared/RerankerService.cs:88 | the empty query is one empty piece, which every non-null text contains |
| Reranker.MetadataRelevance | xshared/RerankerService.cs:91-94 | the relevance is 0 or 1; it is 0 without metadata and 1 exactly when some value's text contains the whole query ignoring case |
| Reranker.HybridScore | xshared/RerankerService.cs:79-85 | the hybrid score lies between the closeness `1 - distance` and the closeness plus 0.3 per query piece plus 0.2 |
| Reranker.WithHybridScores | xshared/RerankerService.cs:39-43 | every hit keeps all its fields except the score, which is replaced by its hybrid score |
| Reranker.SortByScoreDescendingSpec | xshared/RerankerService.cs:44 | the sort is a permutation, scores are non-increasing, and hits with equal scores keep their relative order |
| Reranker.Take | xshared/RerankerService.cs:45 | `Take(n)` is a prefix of length min(n, length), empty when n <= 0 |
| Reranker.IndexOf | xshared/RerankerService.cs:103 | `IndexOf` is -1 exactly for an absent identifier, otherwise its first position |
| Reranker.LlmOrderSpec | xshared/RerankerService.cs:96-105 | the LLM order is a stable permutation by ranking-list index: identifiers absent from the list come first, the rest follow in list order, and ties keep their order |
| Reranker.HeuristicRankingSpec | xshared/RerankerService.cs:36-46 | before LLM ordering the list holds min(topResults, number of distinct identifiers) hits, none for topResults <= 0; scores are non-increasing and each is the hit's own hybrid score; the hits are merged hits, with distinct identifiers from the inputs |
| Reranker.HeuristicRankingOrder | xshared/RerankerService.cs:39-46 | the length and score-order half of `HeuristicRankingSpec` |
| Reranker.HeuristicRankingMembers | xshared/RerankerService.cs:36-46 | the membership half of `HeuristicRankingSpec` |
| Reranker.RerankResultSpec | xshared/RerankerService.cs:48-51 | the result is a permutation of the heuristic ranking with distinct identifiers: the ranking itself when LLM reranking is off, in ranking-list order when it is on |
| StableSort.SortPositionsCorrect | xshared/RerankerService.cs:44 | the sorted positions list every position once, in ascending key order, with ties in original order |
| StableSort.StablyOrderedUnique | xshared/RerankerService.cs:103 | a set of positions has only one stable ordering, so the stable sort depends on the keys alone |
| StableSort.ApplySortPositionsPermutes | xshared/RerankerService.cs:44 | reading a list through its sorted positions keeps the same elements with the same multiplicities |
| SearchHelpers.FilterValue | api_gateway/Helpers/SearchHelpers.cs:44-46 | a filter is the metadata value when that value is a string, and "" when the metadata or the key is missing or the value is not a string |
| SearchHelpers.QueryFiltersSpec | api_gateway/Helpers/SearchHelpers.cs:43-46 | the three filters are "" without metadata; for each of `category`, `keywords` and `named_entities` the matching filter is "" when the key is absent or holds a non-string value, and the string itself otherwise |
| SearchHelpers.GetDocumentData | api_gateway/Helpers/SearchHelpers.cs:42-69 | the loop appends the results of the variations in order, and the reranker runs on them with LLM reranking on |
| SearchHelpers.AggregationSpec | api_gateway/Helpers/SearchHelpers.cs:51-58 | a vector hit is aggregated exactly when some variation returned it, and the aggregate of two lists of variations is the two aggregates one after the other, for vector and keyword hits alike |
| SearchHelpers.GetRagContext | api_gateway/Helpers/SearchHelpers.cs:71-98 | the string-builder loop, with its `continue` skips, returns the context `RagContext` specifies |
| SearchHelpers.BodySpec | api_gateway/Helpers/SearchHelpers.cs:74-91 | a source document with null text and a chunk question with null chunk id are skipped; chunks and chunk summaries give their text; a source document gives its summary; a chunk question gives the document fetched by its chunk id |
| SearchHelpers.SectionLines | api_gateway/Helpers/SearchHelpers.cs:73-96 | a skipped hit adds nothing; a single-line body splits into the body line and four empty lines |
| SearchHelpers.RagContextConcat | api_gateway/Helpers/SearchHelpers.cs:73-96 | the context of two lists one after the other is their contexts one after the other, so the input order is kept |
| SearchHelpers.SetCacheAndReturnOK | api_gateway/Helpers/SearchHelpers.cs:100-103 | the response is stored under the key and returned with 200 |
| SearchHelpers.GenerateWithRetries | api_gateway/Helpers/SearchHelpers.cs:20-28 | the retry loop ends with the attempts, last answer and generation count that `RetryLoop` specifies |
| SearchHelpers.RetryFromBounds | api_gateway/Helpers/SearchHelpers.cs:22-29 | the loop stops after exactly maxRetries irrelevant answers, or with attempts + 1 generations on a relevant answer; never more than maxRetries generations |
| SearchHelpers.NeverRelevant | api_gateway/Helpers/SearchHelpers.cs:22-28 | with every verdict false the loop uses all attempts and generates maxRetries times |
| SearchHelpers.RelevantAt | api_gateway/Helpers/SearchHelpers.cs:22-25 | when the k-th answer is the first relevant one, the loop generates k times and keeps that answer |
| SearchHelpers.RagSearch | api_gateway/Helpers/SearchHelpers.cs:14-40 | the method returns the outcome, generation count and caches that `RagSearchSpec` specifies |
| SearchHelpers.NoDocumentsNotFound | api_gateway/Helpers/SearchHelpers.cs:15-17 | with no reranked documents the result is 404 with no generation and no response-cache write |
| SearchHelpers.RagSearchOutcomes | api_gateway/Helpers/SearchHelpers.cs:14-40 | with documents the result is never 404; a 400 writes nothing; a 200 carries the query, the documents and the context and is cached under the key; at most max(maxRetries, 0) generations happen |
| SearchHelpers.AlwaysIrrelevantFails | api_gateway/Helpers/SearchHelpers.cs:22-33 | with every verdict false and maxRetries >= 1, exactly maxRetries generations happen and the result is the 400 failure |
| SearchHelpers.FirstRelevantSucceeds | api_gateway/Helpers/SearchHelpers.cs:22-39 | when the k-th answer (k <= maxRetries) is the first relevant one, exactly k generations happen and the cached 200 carries that answer |
| SearchHelpers.MaxRetriesEdgeCases | api_gateway/Helpers/SearchHelpers.cs:20-33 | maxRetries = 0 gives 400 with no generation; maxRetries < 0 gives 200 with an empty answer and no generation |
| SearchHelpers.RagSearchWritesOnSuccess | api_gateway/Helpers/SearchHelpers.cs:34-39 | a 200 stores its response under the key and changes nothing else in the response cache |
| SearchHelpers.RagKeySpec | api_gateway/Controllers/SearchController.cs:48 | different queries have different `rag:` keys, and a `rag:` key is never a `rerank:` key |
| SearchHelpers.SearchWithRAG | api_gateway/Controllers/SearchController.cs:44-53 | a blank query is refused, a cached response is returned as it is, and otherwise `RagSearch` runs with key `rag:{query}` and three attempts |
| SearchHelpers.SecondRequestServedFromCache | api_gateway/Controllers/SearchController.cs:48-52 | after a 200, the same query is answered from the cache with the same response and no generation, whatever the services answer |
| Tfidf.TfidfEmbeddingService.constructor | vectordb/TfidfEmbeddingService.cs:7-10 | the service starts with an empty vocabulary |
| Tfidf.TfidfEmbeddingService.GenerateEmbedding | vectordb/TfidfEmbeddingService.cs:12-23 | the vocabulary grows by the text's new tokens in first-seen order, the vocabulary invariant is kept, and the embedding is a new array of 1024 entries: the normalised counts of the tokens |
| Tfidf.TfidfEmbeddingService.CountTokens | vectordb/TfidfEmbeddingService.cs:16-20 | the counting loop gives each new token its slot and returns the count vector `Counts` specifies |
| Tfidf.TfidfEmbeddingService.Normalize | vectordb/TfidfEmbeddingService.cs:31-34 | the result is the normalised vector; it is the input array itself when the norm is 0 and a new array otherwise |
| Tfidf.TokenizeSpec | vectordb/TfidfEmbeddingService.cs:25-29 | every token of `Tokenize` (the pieces of `Regex.Split(text.ToLower(), @"\W+")` that are not blank) is non-empty, lower case and made of word characters only |
| Tfidf.DropBlank | vectordb/TfidfEmbeddingService.cs:27 | the kept pieces are non-blank pieces of the input |
| Tfidf.AddTokensInvariant | vectordb/TfidfEmbeddingService.cs:17-18 | adding tokens keeps the invariant: new tokens are appended in first-seen order and each slot is the token's position modulo 1024 |
| Tfidf.AddTokensKeeps | vectordb/TfidfEmbeddingService.cs:17-18 | existing entries never change, and the vocabulary holds the old tokens plus the new ones |
| Tfidf.SlotsInRange | vectordb/TfidfEmbeddingService.cs:17-18 | every slot lies in [0, 1024) |
| Tfidf.SlotsWhileSmall | vectordb/TfidfEmbeddingService.cs:17-18 | while the vocabulary holds at most 1024 tokens, the k-th token has slot k, so distinct tokens have distinct slots |
| Tfidf.CountingStep | vectordb/TfidfEmbeddingService.cs:16-20 | one iteration of the counting loop keeps the loop invariant and indexes the vector in bounds |
| Tfidf.CountsAreOccurrences | vectordb/TfidfEmbeddingService.cs:16-20 | slot j of the count vector is the number of tokens whose slot is j |
| Tfidf.CountsSum | vectordb/TfidfEmbeddingService.cs:16-20 | the counts add up to the number of tokens |
| Tfidf.SumOfSquaresZero | vectordb/TfidfEmbeddingService.cs:32 | the sum of squares is never negative and is 0 only for the zero vector |
| Tfidf.NoTokensZeroVector | vectordb/TfidfEmbeddingService.cs:31-33 | a text without tokens gives the zero vector, which `Normalize` returns unchanged |
| Tfidf.NormalizedUnchangedOnlyForZero | vectordb/TfidfEmbeddingService.cs:32-33 | with a square root that is positive on positive numbers, only the zero vector is returned unscaled |
| Onnx.EncodeChar | vectordb/OnnxEmbeddingService.cs:49 | a character encodes to 1 to 4 bytes, each in 0..255, and to a single byte exactly when it is ASCII |
| Onnx.Utf8IsBytes | vectordb/OnnxEmbeddingService.cs:49 | every byte of the encoding is in 0..255, and there are at least as many bytes as characters |
| Onnx.TokensAreBytes | vectordb/OnnxEmbeddingService.cs:47-50 | every token is a byte value in 0..255 |
| Onnx.Utf8OfAscii | vectordb/OnnxEmbeddingService.cs:49 | an ASCII text encodes to its character codes, one byte each |
| Onnx.DecodeEncodeChar | vectordb/OnnxEmbeddingService.cs:49 | the lead byte announces the length of its sequence, and the sequence decodes to the character |
| Onnx.DecodeUtf8 | vectordb/OnnxEmbeddingService.cs:49 | an independent UTF-8 decoder recovers the code points, so the tokens determine the normalised text |
| Onnx.MaskOnes | vectordb/OnnxEmbeddingService.cs:24-27 | a mask of ones on a prefix of length n and zeros after it holds exactly n ones |
| Onnx.PadTokens | vectordb/OnnxEmbeddingService.cs:19-29 | three new arrays of length 512: the first min(tokens, 512) entries hold the tokens with mask 1, the rest are 0 with mask 0, and the token types are all 0 |
| Onnx.PrepareInputs | vectordb/OnnxEmbeddingService.cs:17-29 | the padded inputs of a text's tokens; the mask holds exactly min(tokens, 512) ones and every input id is in 0..255 |
| FileProcessing.GetExtensionShape | api_gateway/Services/FileProcessor.cs:16 | the extension is "" or a '.' followed by at least one character that is neither '.' nor a separator, and it ends the path |
| FileProcessing.GetExtensionOf | api_gateway/Services/FileProcessor.cs:16 | a path that ends in '.' and a non-empty dot-free name has that extension, whatever comes before |
| FileProcessing.GetExtensionOfLower | api_gateway/Services/FileProcessor.cs:16 | the extension of the lower-cased path is the lower-cased extension |
| FileProcessing.NewFileProcessor | api_gateway/Services/FileProcessor.cs:14-17 | the processor keeps the path, and its file type is already lower case |
| FileProcessing.FileTypeIgnoresCase | api_gateway/Services/FileProcessor.cs:14-17 | paths that differ only in letter case get the same file type |
| FileProcessing.UpperCasePdf | api_gateway/Services/FileProcessor.cs:16-21 | a path ending in ".PDF" gets file type ".pdf" and the PDF extractor |
| FileProcessing.SelectExtractor | api_gateway/Services/FileProcessor.cs:20-26 | an extractor is chosen exactly for ".pdf", ".docx", ".txt", ".jpg", ".png", ".html" and ".htm" |
| FileProcessing.ExtractText | api_gateway/Services/FileProcessor.cs:19-28 | the dispatch returns the chosen extractor's text, or the unsupported-type error |
| FileProcessing.ExtractTextOutcome | api_gateway/Services/FileProcessor.cs:20-26 | extraction fails exactly for the other types, and the error is "Unsupported file type: " followed by the type |
| FileProcessing.ExtractTextFromPdf | api_gateway/Services/FileProcessor.cs:30-38 | the page loop returns each page's text followed by "\n", pages 1..N in order, which is "" for no pages |
| FileProcessing.PdfTextIsJoin | api_gateway/Services/FileProcessor.cs:32-37 | the PDF text is the pages joined by "\n", plus a final "\n" |
| FileProcessing.PdfPagesRecovered | api_gateway/Services/FileProcessor.cs:32-37 | when no page contains a line break, splitting the text at line breaks gives the pages back, followed by one empty piece |
| FileProcessing.PdfTextConcat | api_gateway/Services/FileProcessor.cs:34-36 | the text of two page lists one after the other is their texts one after the other |
| FileProcessing.ExtractTextFromHtml | api_gateway/Services/FileProcessor.cs:57-61 | the normalised HTML text neither starts nor ends with white space and is collapsed |
| FileProcessing.HtmlNormalizeShape | api_gateway/Services/FileProcessor.cs:60 | the text neither starts nor ends with white space, every white-space character in it is ' ', and no two white-space characters are adjacent |
| FileProcessing.HtmlNormalizeKeepsText | api_gateway/Services/FileProcessor.cs:60 | the characters that are not white space are kept, in their original order |
| FileProcessing.HtmlNormalizeIdempotent | api_gateway/Services/FileProcessor.cs:60 | normalising twice is normalising once |

## Left out

- The HTTP, Redis, Elasticsearch, Chroma and language-model clients are oracle parameters or
  maps. Cache expiry (TTL) is time-based and is not modelled. JSON serialisation is the
  identity, and deserialising a stored value never fails.
- The prompt text built in `LLMRerank` (xshared/RerankerService.cs:97-98) is not modelled. Only
  the ordering by the returned ranking list is.
- Aliasing is not modelled. `MergeResults` and the rescoring `Select` mutate the caller's
  `DocumentSearchResult` objects. The model works on values, so the caller's lists are not
  shown as changed.
- Null identifiers and null lists are not modelled. A null `Id` would make the dictionary throw.
- Exceptions and the controllers' 500 responses are not modelled, except the unsupported-type
  error, which is a `Failure` result.
- async/await and `Task.Run` are taken as sequential code.
- The retry loop's console logging is not modelled.
- Floating point is modelled as `real`. `float` distances and `double` scores are exact.
  `Normalize` divides by the result of a `sqrt` parameter.
- Tfidf.TfidfEmbeddingService.Normalize: the non-zero branch is not proved to give a unit-length
  vector. That depends on IEEE square root and division. Only the zero case and the exact-root
  fact `NormalizedUnchangedOnlyForZero` are proved.
- Tfidf.TfidfEmbeddingService.GenerateEmbedding: the vocabulary is copied into a local variable
  for the counting loop and written back after it. In the system it is updated in place one
  token at a time; no other code observes the difference.
- The ONNX `InferenceSession` and its embedding output are not modelled
  (vectordb/OnnxEmbeddingService.cs:31-43). The `long[]` arrays are `int` arrays; the values
  are bytes, 0 and 1.
- Onnx.EncodeChar: Dafny characters are Unicode scalar values. The lone UTF-16 surrogates
  that .NET replaces with U+FFFD cannot occur in the model.
- `char.ToLower`, `OrdinalIgnoreCase` and the regular-expression class `\w` are modelled on
  ASCII letters, digits and '_'. Non-ASCII letters are treated as non-word characters and are
  not case-folded. `char.IsWhiteSpace` and `\s` use the full Unicode white-space set.
- FileProcessing.GetExtension: takes '/' as the only directory separator, as on the Linux
  hosts. Windows also treats '\\' and ':' as separators.
- SearchHelpers.NewLine: `Environment.NewLine` is taken as "\n", as on the Linux hosts. On
  Windows it is "\r\n", and every context section would then hold that pair instead.
- The PDF, Word, OCR and HTML libraries are not modelled. Their results are the inputs in
  `FileContents`. The Word (`ExtractTextFromDocx`), plain-text and image extractors return
  those inputs unchanged.
- Text chunking (`ChunkText`) is not modelled. Its implementation is not part of this model.
- The MQTT services, uploads, dependency-injection setup, the Chroma worker and the Angular
  frontend are outside the retrieval core and are not modelled.
