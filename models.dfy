/**
 * The records exchanged between the retriever, the reranker and the orchestrator:
 * a search hit (`DocumentSearchResult`), a keyword-index document (`ElasticSearchDocument`)
 * and the final answer (`RAGResponse`). Nullable members are `Option`s.
 */
module Models {
  import opened Wrappers

  /** The kind of stored record a hit came from. The misspelling `ChunkQuesiton` is the
      system's own enum member name. */
  datatype RagDataType = SourceDocument | Chunk | ChunkSummary | ChunkQuesiton

  /** A value of an open `Dictionary<string, object>`: either a string, or some other object
      together with what its `ToString()` returns (which may be null). */
  datatype MetaValue = Text(s: string) | Other(shown: Option<string>)

  type Metadata = map<string, MetaValue>

  /** `value.ToString()`: a string is its own text. */
  function Shown(v: MetaValue): Option<string> {
    match v
    case Text(s) => Some(s)
    case Other(shown) => shown
  }

  /** `DocumentSearchResult`: one hit of the vector store or of the keyword index.
      `distance` is the vector-space distance (a single-precision float in the system),
      `score` the ranking score (a double). */
  datatype DocumentSearchResult = DocumentSearchResult(
    distance: real,
    originalDocumentId: Option<string>,
    originalChunkDocumentId: Option<string>,
    originalDocumentMetadata: Option<Metadata>,
    dataType: RagDataType,
    score: real,
    id: string,
    originalText: Option<string>,
    originalDocumentText: Option<string>,
    metadatas: Option<Metadata>)

  /** `ElasticSearchDocument`: a text chunk stored in the keyword index. */
  datatype ElasticSearchDocument = ElasticSearchDocument(
    id: string,
    content: Option<string>,
    metadata: Option<Metadata>)

  /** `RAGResponse`: what a successful orchestration run returns and caches. */
  datatype RAGResponse = RAGResponse(
    query: Option<string>,
    retrievedDocuments: Option<seq<DocumentSearchResult>>,
    llmResponse: Option<string>,
    promptContext: Option<string>)

  /** The identifiers of a list of hits, in order. */
  function Ids(hits: seq<DocumentSearchResult>): (ids: seq<string>)
    ensures |ids| == |hits|
    ensures forall i :: 0 <= i < |hits| ==> ids[i] == hits[i].id
  {
    seq(|hits|, i requires 0 <= i < |hits| => hits[i].id)
  }

  /** No identifier occurs twice. */
  predicate DistinctIds(hits: seq<DocumentSearchResult>) {
    forall i, j :: 0 <= i < j < |hits| ==> hits[i].id != hits[j].id
  }
}
