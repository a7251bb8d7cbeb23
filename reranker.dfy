/**
 * The reranker (`RerankerService`): keyword hits are converted to search results, merged with
 * the vector hits by identifier, rescored with the hybrid score, sorted by descending score,
 * cut to `topResults` and optionally reordered by an LLM ranking; the outcome is memoised in
 * the cache under `rerank:{query}:{topResults}`.
 */
module Reranker {
  import opened Wrappers
  import opened Text
  import opened Models
  import opened StableSort
  import opened Sequences

  type Hit = DocumentSearchResult

  /** The cache entries of the reranker. A stored list is its own JSON text, and the JSON text
      of a list is never the empty string, so every present key is a cache hit. */
  type RerankCache = map<string, seq<Hit>>

  const KeywordInitialScore: real := 0.5
  const KeywordWeight: real := 0.3
  const MetadataWeight: real := 0.2

  function Max(a: real, b: real): (m: real)
    ensures m >= a && m >= b && (m == a || m == b)
  {
    if a >= b then a else b
  }

  // ---------------------------------------------------------------------------
  // Cache key
  // ---------------------------------------------------------------------------

  /** `$"rerank:{query}:{topResults}"`. */
  function RerankKey(query: string, topResults: int): string {
    "rerank:" + query + ":" + IntToString(topResults)
  }

  /** Different (query, topResults) pairs never share a cache entry: the text after the last
      ':' is the number, and the query is what lies between the prefix and that ':'. */
  lemma RerankKeyInjective(q1: string, t1: int, q2: string, t2: int)
    requires RerankKey(q1, t1) == RerankKey(q2, t2)
    ensures q1 == q2 && t1 == t2
  {
    var s1, s2 := IntToString(t1), IntToString(t2);
    var p1, p2 := "rerank:" + q1, "rerank:" + q2;
    assert RerankKey(q1, t1) == p1 + [':'] + s1;
    assert RerankKey(q2, t2) == p2 + [':'] + s2;
    SplitAtLastSeparator(p1, s1, p2, s2, ':');
    IntToStringInjective(t1, t2);
    assert q1 == p1[7..] && q2 == p2[7..];
  }

  /** A separator that the tails do not contain splits a string in only one way. */
  lemma SplitAtLastSeparator(x1: string, s1: string, x2: string, s2: string, c: char)
    requires x1 + [c] + s1 == x2 + [c] + s2
    requires c !in s1 && c !in s2
    ensures x1 == x2 && s1 == s2
  {
    var key := x1 + [c] + s1;
    assert key[|x1|] == c && key[|x2|] == c;
    assert forall j :: |x1| < j < |key| ==> key[j] == s1[j - |x1| - 1];
    assert forall j :: |x2| < j < |key| ==> key[j] == s2[j - |x2| - 1];
    assert |x1| == |x2|;
    assert x1 == key[..|x1|] == x2;
    assert s1 == key[|x1| + 1..] == s2;
  }

  // ---------------------------------------------------------------------------
  // Step 1: keyword documents as search results
  // ---------------------------------------------------------------------------

  /** `new DocumentSearchResult { Id = chunk.Id, OriginalText = chunk.Content, Score = 0.5 }`:
      every other member keeps its default (distance 0, the first enum member
      `SourceDocument`, null references). */
  function ToSearchResult(d: ElasticSearchDocument): Hit {
    DocumentSearchResult(0.0, None, None, None, SourceDocument, KeywordInitialScore,
                         d.id, d.content, None, None)
  }

  function ConvertKeywordResults(docs: seq<ElasticSearchDocument>): (hits: seq<Hit>)
    ensures |hits| == |docs|
    ensures forall i :: 0 <= i < |docs| ==> hits[i] == ToSearchResult(docs[i])
  {
    seq(|docs|, i requires 0 <= i < |docs| => ToSearchResult(docs[i]))
  }

  // ---------------------------------------------------------------------------
  // Step 2: merging by identifier
  // ---------------------------------------------------------------------------

  /** The position of the first hit with identifier `id`. */
  function FindId(hits: seq<Hit>, id: string): (r: Option<nat>)
    ensures r.Some? ==> r.value < |hits| && hits[r.value].id == id
    ensures r.Some? ==> forall k :: 0 <= k < r.value ==> hits[k].id != id
    ensures r.None? ==> forall k :: 0 <= k < |hits| ==> hits[k].id != id
    ensures r.Some? <==> id in Ids(hits)
  {
    if |hits| == 0 then None
    else if hits[0].id == id then Some(0)
    else match FindId(hits[1..], id)
      case None => None
      case Some(k) => Some(k + 1)
  }

  /** The entry with identifier `id`. */
  function EntryOf(hits: seq<Hit>, id: string): Hit
    requires id in Ids(hits)
  {
    hits[FindId(hits, id).value]
  }

  /** The dictionary of `MergeResults` as a list in insertion order (the order in which a .NET
      `Dictionary` that is never removed from enumerates its values). A vector hit is added
      only if its identifier is new. */
  function AddVectorHit(merged: seq<Hit>, h: Hit): seq<Hit> {
    if FindId(merged, h.id).Some? then merged else merged + [h]
  }

  /** A keyword hit with a known identifier raises that entry's score to the larger of the
      two; otherwise it is added. */
  function AddKeywordHit(merged: seq<Hit>, h: Hit): seq<Hit> {
    match FindId(merged, h.id)
    case Some(k) => merged[k := merged[k].(score := Max(merged[k].score, h.score))]
    case None => merged + [h]
  }

  function AddVectorHits(merged: seq<Hit>, hits: seq<Hit>): seq<Hit>
    decreases |hits|
  {
    if |hits| == 0 then merged
    else AddVectorHit(AddVectorHits(merged, hits[..|hits| - 1]), hits[|hits| - 1])
  }

  function AddKeywordHits(merged: seq<Hit>, hits: seq<Hit>): seq<Hit>
    decreases |hits|
  {
    if |hits| == 0 then merged
    else AddKeywordHit(AddKeywordHits(merged, hits[..|hits| - 1]), hits[|hits| - 1])
  }

  /** What `MergeResults(vectorDbResults, keywordResults)` returns. */
  function Merge(vectorHits: seq<Hit>, keywordHits: seq<Hit>): seq<Hit> {
    AddKeywordHits(AddVectorHits([], vectorHits), keywordHits)
  }

  /** The largest of `s0` and the scores of the hits with identifier `id`. */
  function MaxScore(s0: real, hits: seq<Hit>, id: string): real
    decreases |hits|
  {
    if |hits| == 0 then s0
    else
      var m := MaxScore(s0, hits[..|hits| - 1], id);
      if hits[|hits| - 1].id == id then Max(m, hits[|hits| - 1].score) else m
  }

  // --- identifiers ---

  lemma IdsOfPrefix(hits: seq<Hit>, n: nat)
    requires n <= |hits|
    ensures Ids(hits[..n]) == Ids(hits)[..n]
  {
  }

  lemma IdsOfAppend(hits: seq<Hit>, h: Hit)
    ensures Ids(hits + [h]) == Ids(hits) + [h.id]
  {
  }

  lemma AddVectorHitIds(merged: seq<Hit>, h: Hit)
    ensures Ids(AddVectorHit(merged, h)) == if h.id in Ids(merged) then Ids(merged) else Ids(merged) + [h.id]
  {
    IdsOfAppend(merged, h);
  }

  lemma AddKeywordHitIds(merged: seq<Hit>, h: Hit)
    ensures Ids(AddKeywordHit(merged, h)) == if h.id in Ids(merged) then Ids(merged) else Ids(merged) + [h.id]
  {
    IdsOfAppend(merged, h);
  }

  lemma {:induction false} AddVectorHitsIds(merged: seq<Hit>, hits: seq<Hit>)
    ensures Ids(AddVectorHits(merged, hits)) == AppendNew(Ids(merged), Ids(hits))
    decreases |hits|
  {
    if |hits| > 0 {
      AddVectorHitsIds(merged, hits[..|hits| - 1]);
      IdsOfPrefix(hits, |hits| - 1);
      AddVectorHitIds(AddVectorHits(merged, hits[..|hits| - 1]), hits[|hits| - 1]);
    }
  }

  lemma {:induction false} AddKeywordHitsIds(merged: seq<Hit>, hits: seq<Hit>)
    ensures Ids(AddKeywordHits(merged, hits)) == AppendNew(Ids(merged), Ids(hits))
    decreases |hits|
  {
    if |hits| > 0 {
      AddKeywordHitsIds(merged, hits[..|hits| - 1]);
      IdsOfPrefix(hits, |hits| - 1);
      AddKeywordHitIds(AddKeywordHits(merged, hits[..|hits| - 1]), hits[|hits| - 1]);
    }
  }

  /** The merged identifiers are those of both inputs, each once, in the order of first
      occurrence in the vector hits followed by the keyword hits. */
  lemma MergeIds(vectorHits: seq<Hit>, keywordHits: seq<Hit>)
    ensures Ids(Merge(vectorHits, keywordHits)) == FirstOccurrences(Ids(vectorHits) + Ids(keywordHits))
  {
    AddVectorHitsIds([], vectorHits);
    AddKeywordHitsIds(AddVectorHits([], vectorHits), keywordHits);
    assert Ids([]) == [];
    AppendNewConcat([], Ids(vectorHits), Ids(keywordHits));
  }

  /** No identifier occurs twice in the merged list, and its identifiers are exactly those of
      the vector hits and the keyword hits. */
  lemma MergeDistinctAndComplete(vectorHits: seq<Hit>, keywordHits: seq<Hit>)
    ensures DistinctIds(Merge(vectorHits, keywordHits))
    ensures forall id :: id in Ids(Merge(vectorHits, keywordHits)) <==>
                         id in Ids(vectorHits) || id in Ids(keywordHits)
  {
    var merged := Merge(vectorHits, keywordHits);
    MergeIds(vectorHits, keywordHits);
    AppendNewProperties([], Ids(vectorHits) + Ids(keywordHits));
    assert forall i, j :: 0 <= i < j < |merged| ==> Ids(merged)[i] != Ids(merged)[j];
  }

  // --- entries ---

  /** The first position with identifier `id` is what `FindId` finds. */
  lemma FindIdIsFirst(hits: seq<Hit>, id: string, k: nat)
    requires k < |hits| && hits[k].id == id
    requires forall t :: 0 <= t < k ==> hits[t].id != id
    ensures FindId(hits, id) == Some(k)
  {
    assert Ids(hits)[k] == id;
    var r := FindId(hits, id);
    assert !(r.value < k);
    assert !(r.value > k);
  }

  lemma FindIdPrefix(hits: seq<Hit>, h: Hit, id: string)
    requires id in Ids(hits)
    ensures FindId(hits + [h], id) == FindId(hits, id)
  {
    var k := FindId(hits, id).value;
    var ext := hits + [h];
    assert forall t :: 0 <= t <= k ==> ext[t] == hits[t];
    FindIdIsFirst(ext, id, k);
  }

  lemma FindIdLast(hits: seq<Hit>, h: Hit)
    requires h.id !in Ids(hits)
    ensures FindId(hits + [h], h.id) == Some(|hits|)
  {
    var ext := hits + [h];
    assert forall t :: 0 <= t < |hits| ==> ext[t] == hits[t] && Ids(hits)[t] == hits[t].id;
    FindIdIsFirst(ext, h.id, |hits|);
  }

  lemma DistinctFindId(hits: seq<Hit>, p: nat)
    requires DistinctIds(hits) && p < |hits|
    ensures FindId(hits, hits[p].id) == Some(p)
  {
    FindIdIsFirst(hits, hits[p].id, p);
  }

  lemma {:induction false} AddVectorHitsDistinct(merged: seq<Hit>, hits: seq<Hit>)
    requires DistinctIds(merged)
    ensures DistinctIds(AddVectorHits(merged, hits))
  {
    var r := AddVectorHits(merged, hits);
    AddVectorHitsIds(merged, hits);
    AppendNewProperties(Ids(merged), Ids(hits));
    assert forall i, j :: 0 <= i < j < |r| ==> Ids(r)[i] != Ids(r)[j];
  }

  lemma {:induction false} AddKeywordHitsDistinct(merged: seq<Hit>, hits: seq<Hit>)
    requires DistinctIds(merged)
    ensures DistinctIds(AddKeywordHits(merged, hits))
  {
    var r := AddKeywordHits(merged, hits);
    AddKeywordHitsIds(merged, hits);
    AppendNewProperties(Ids(merged), Ids(hits));
    assert forall i, j :: 0 <= i < j < |r| ==> Ids(r)[i] != Ids(r)[j];
  }

  /** The first vector hit with a new identifier is the entry for it, and later vector hits
      with that identifier are ignored. */
  lemma {:induction false} AddVectorHitsFirstKept(merged: seq<Hit>, hits: seq<Hit>, i: nat)
    requires i < |hits| && hits[i].id !in Ids(merged)
    requires forall t :: 0 <= t < i ==> hits[t].id != hits[i].id
    ensures hits[i].id in Ids(AddVectorHits(merged, hits))
    ensures EntryOf(AddVectorHits(merged, hits), hits[i].id) == hits[i]
    decreases |hits|
  {
    var id := hits[i].id;
    var init := hits[..|hits| - 1];
    var last := hits[|hits| - 1];
    var r := AddVectorHits(merged, init);
    AddVectorHitsIds(merged, init);
    AppendNewMembers(Ids(merged), Ids(init));
    if i < |hits| - 1 {
      AddVectorHitsFirstKept(merged, init, i);
      if last.id !in Ids(r) {
        FindIdPrefix(r, last, id);
      }
    } else {
      assert forall t :: 0 <= t < |init| ==> Ids(init)[t] != id;
      assert id !in Ids(r);
      FindIdLast(r, last);
    }
  }

  /** An existing entry keeps its position and everything but its score, which becomes the
      largest of its own and those of the keyword hits with its identifier. */
  lemma {:induction false} AddKeywordHitsEntry(merged: seq<Hit>, hits: seq<Hit>, p: nat)
    requires DistinctIds(merged) && p < |merged|
    ensures p < |AddKeywordHits(merged, hits)|
    ensures AddKeywordHits(merged, hits)[p] == merged[p].(score := MaxScore(merged[p].score, hits, merged[p].id))
    decreases |hits|
  {
    if |hits| > 0 {
      var init := hits[..|hits| - 1];
      var h := hits[|hits| - 1];
      var id := merged[p].id;
      AddKeywordHitsEntry(merged, init, p);
      var r := AddKeywordHits(merged, init);
      AddKeywordHitsDistinct(merged, init);
      match FindId(r, h.id)
      case Some(q) =>
        if q != p {
          assert r[q].id != r[p].id;
        }
      case None =>
        assert r[p].id == id;
    }
  }

  lemma {:induction false} AddKeywordHitsConcat(merged: seq<Hit>, a: seq<Hit>, b: seq<Hit>)
    ensures AddKeywordHits(merged, a + b) == AddKeywordHits(AddKeywordHits(merged, a), b)
    decreases |b|
  {
    if |b| == 0 {
      assert a + b == a;
    } else {
      PrefixOfConcat(a, b);
      AddKeywordHitsConcat(merged, a, b[..|b| - 1]);
    }
  }

  lemma {:induction false} MaxScoreConcat(s0: real, a: seq<Hit>, b: seq<Hit>, id: string)
    ensures MaxScore(s0, a + b, id) == MaxScore(MaxScore(s0, a, id), b, id)
    decreases |b|
  {
    if |b| == 0 {
      assert a + b == a;
    } else {
      PrefixOfConcat(a, b);
      MaxScoreConcat(s0, a, b[..|b| - 1], id);
    }
  }

  lemma {:induction false} MaxScoreNoMatch(s0: real, hits: seq<Hit>, id: string)
    requires id !in Ids(hits)
    ensures MaxScore(s0, hits, id) == s0
    decreases |hits|
  {
    if |hits| > 0 {
      IdsOfPrefix(hits, |hits| - 1);
      MaxScoreNoMatch(s0, hits[..|hits| - 1], id);
    }
  }

  /** When every hit has the same score `c`, the largest score is `max(s0, c)` if some hit
      has identifier `id`, and `s0` otherwise. */
  lemma {:induction false} MaxScoreUniform(s0: real, hits: seq<Hit>, id: string, c: real)
    requires forall i :: 0 <= i < |hits| ==> hits[i].score == c
    ensures MaxScore(s0, hits, id) == if id in Ids(hits) then Max(s0, c) else s0
    decreases |hits|
  {
    if |hits| > 0 {
      IdsOfPrefix(hits, |hits| - 1);
      MaxScoreUniform(s0, hits[..|hits| - 1], id, c);
      assert Ids(hits) == Ids(hits[..|hits| - 1]) + [hits[|hits| - 1].id];
    }
  }

  /** For an identifier whose first occurrence is the vector hit `vectorHits[i]`, the merged
      entry is that hit (later vector hits with the identifier are dropped) with its score
      raised to the largest score of the keyword hits with that identifier. */
  lemma MergeVectorEntry(vectorHits: seq<Hit>, keywordHits: seq<Hit>, i: nat)
    requires i < |vectorHits|
    requires forall t :: 0 <= t < i ==> vectorHits[t].id != vectorHits[i].id
    ensures vectorHits[i].id in Ids(Merge(vectorHits, keywordHits))
    ensures EntryOf(Merge(vectorHits, keywordHits), vectorHits[i].id)
         == vectorHits[i].(score := MaxScore(vectorHits[i].score, keywordHits, vectorHits[i].id))
  {
    var id := vectorHits[i].id;
    var m := AddVectorHits([], vectorHits);
    assert Ids([]) == [];
    AddVectorHitsFirstKept([], vectorHits, i);
    var p := FindId(m, id).value;
    AddVectorHitsDistinct([], vectorHits);
    AddKeywordHitsEntry(m, keywordHits, p);
    var merged := Merge(vectorHits, keywordHits);
    AddKeywordHitsDistinct(m, keywordHits);
    DistinctFindId(merged, p);
  }

  /** For an identifier that no vector hit has and whose first keyword hit is
      `keywordHits[j]`, the merged entry is that hit with the largest score of the keyword hits
      with that identifier. */
  lemma MergeKeywordEntry(vectorHits: seq<Hit>, keywordHits: seq<Hit>, j: nat)
    requires j < |keywordHits| && keywordHits[j].id !in Ids(vectorHits)
    requires forall t :: 0 <= t < j ==> keywordHits[t].id != keywordHits[j].id
    ensures keywordHits[j].id in Ids(Merge(vectorHits, keywordHits))
    ensures EntryOf(Merge(vectorHits, keywordHits), keywordHits[j].id)
         == keywordHits[j].(score := MaxScore(keywordHits[j].score, keywordHits, keywordHits[j].id))
  {
    var h := keywordHits[j];
    var m := AddVectorHits([], vectorHits);
    VectorPartLacks(vectorHits, h.id);
    var before, rest := keywordHits[..j], keywordHits[j + 1..];
    SplitAround(keywordHits, j);
    assert forall t :: 0 <= t < |before| ==> Ids(before)[t] != h.id;
    var p := KeywordFirstAppended(m, before, h);
    var m1 := AddKeywordHits(m, before + [h]);
    EntryAfterKeywordHits(m1, rest, p);
    AddKeywordHitsConcat(m, before + [h], rest);
    MaxScoreConcat(h.score, before + [h], rest, h.id);
    MaxScoreFirst(before, h);
  }

  lemma VectorPartLacks(vectorHits: seq<Hit>, id: string)
    requires id !in Ids(vectorHits)
    ensures DistinctIds(AddVectorHits([], vectorHits)) && id !in Ids(AddVectorHits([], vectorHits))
  {
    AddVectorHitsIds([], vectorHits);
    assert Ids([]) == [];
    AppendNewMembers([], Ids(vectorHits));
    AddVectorHitsDistinct([], vectorHits);
  }

  lemma EntryAfterKeywordHits(m: seq<Hit>, hits: seq<Hit>, p: nat)
    requires DistinctIds(m) && p < |m|
    ensures m[p].id in Ids(AddKeywordHits(m, hits))
    ensures EntryOf(AddKeywordHits(m, hits), m[p].id) == m[p].(score := MaxScore(m[p].score, hits, m[p].id))
  {
    AddKeywordHitsEntry(m, hits, p);
    AddKeywordHitsDistinct(m, hits);
    DistinctFindId(AddKeywordHits(m, hits), p);
  }

  lemma MaxScoreFirst(before: seq<Hit>, h: Hit)
    requires h.id !in Ids(before)
    ensures MaxScore(h.score, before + [h], h.id) == h.score
  {
    assert (before + [h])[..|before + [h]| - 1] == before;
    MaxScoreNoMatch(h.score, before, h.id);
  }

  /** A keyword hit with a new identifier is appended after the entries so far. */
  lemma KeywordFirstAppended(m: seq<Hit>, before: seq<Hit>, h: Hit) returns (p: nat)
    requires DistinctIds(m) && h.id !in Ids(m) && h.id !in Ids(before)
    ensures DistinctIds(AddKeywordHits(m, before + [h]))
    ensures p < |AddKeywordHits(m, before + [h])| && AddKeywordHits(m, before + [h])[p] == h
  {
    var r := AddKeywordHits(m, before);
    AddKeywordHitsIds(m, before);
    AppendNewMembers(Ids(m), Ids(before));
    assert h.id !in Ids(r);
    AddKeywordHitsDistinct(m, before);
    assert (before + [h])[..|before + [h]| - 1] == before;
    assert AddKeywordHits(m, before + [h]) == r + [h];
    IdsOfAppend(r, h);
    p := |r|;
  }

  // ---------------------------------------------------------------------------
  // Step 3: hybrid score
  // ---------------------------------------------------------------------------

  /** The pieces of `query.Split(' ')`. */
  function QueryWords(query: string): (words: seq<string>)
    ensures |words| >= 1
  {
    SplitWhere(query, IsSpace)
  }

  /** The number of `words` that occur in `text`, ignoring case; none when `text` is null. */
  function CountContained(text: Option<string>, words: seq<string>): (n: nat)
    ensures n <= |words|
    ensures text.None? ==> n == 0
    decreases |words|
  {
    if |words| == 0 then 0
    else
      CountContained(text, words[..|words| - 1])
      + (if text.Some? && ContainsIgnoreCase(text.value, words[|words| - 1]) then 1 else 0)
  }

  /** `ComputeKeywordMatchScore`. */
  function KeywordMatchCount(text: Option<string>, query: string): nat {
    CountContained(text, QueryWords(query))
  }

  /** The positions of `words` whose word occurs in `text`. */
  ghost function MatchingPositions(text: Option<string>, words: seq<string>): set<nat> {
    set k: nat | k < |words| && text.Some? && ContainsIgnoreCase(text.value, words[k])
  }

  lemma {:induction false} CountContainedIsCardinality(text: Option<string>, words: seq<string>)
    ensures CountContained(text, words) == |MatchingPositions(text, words)|
    decreases |words|
  {
    if |words| > 0 {
      var n := |words| - 1;
      var init := words[..n];
      CountContainedIsCardinality(text, init);
      var before := MatchingPositions(text, init);
      var after := MatchingPositions(text, words);
      if text.Some? && ContainsIgnoreCase(text.value, words[n]) {
        assert after == before + {n};
      } else {
        assert after == before;
      }
    }
  }

  /** The keyword match count is the number of pieces of `query.Split(' ')`, repeated and empty
      pieces included, that occur case-insensitively in the text; it is 0 for a null text and
      at most the number of pieces. */
  lemma KeywordMatchCountSpec(text: Option<string>, query: string)
    ensures KeywordMatchCount(text, query) == |MatchingPositions(text, QueryWords(query))|
    ensures KeywordMatchCount(text, query) <= |QueryWords(query)|
    ensures text.None? ==> KeywordMatchCount(text, query) == 0
  {
    CountContainedIsCardinality(text, QueryWords(query));
  }

  /** Empty pieces count: every non-null text matches the empty query once. */
  lemma EmptyQueryMatchesOnce(text: string)
    ensures KeywordMatchCount(Some(text), "") == 1
  {
    assert QueryWords("") == [""];
    EmptyIsContained(text);
    assert [""][..0] == [];
  }

  /** `value.ToString()?.Contains(query, OrdinalIgnoreCase) ?? false`. */
  predicate MentionsQuery(v: MetaValue, query: string) {
    Shown(v).Some? && ContainsIgnoreCase(Shown(v).value, query)
  }

  /** `ComputeMetadataRelevance`: 1 when some metadata value contains the whole query,
      ignoring case, and 0 otherwise, in particular when there is no metadata. */
  function MetadataRelevance(metadata: Option<Metadata>, query: string): (r: real)
    ensures r == 0.0 || r == 1.0
    ensures metadata.None? ==> r == 0.0
    ensures r == 1.0 <==> metadata.Some? && exists k :: k in metadata.value && MentionsQuery(metadata.value[k], query)
  {
    if metadata.None? then 0.0
    else if exists k | k in metadata.value :: MentionsQuery(metadata.value[k], query) then 1.0
    else 0.0
  }

  /** `ComputeHybridScore`: closeness plus 0.3 per matching query word plus 0.2 for relevant
      metadata. */
  function HybridScore(h: Hit, query: string): (r: real)
    ensures 1.0 - h.distance <= r <= 1.0 - h.distance + KeywordWeight * (|QueryWords(query)| as real) + MetadataWeight
  {
    (1.0 - h.distance)
    + KeywordWeight * (KeywordMatchCount(h.originalText, query) as real)
    + MetadataWeight * MetadataRelevance(h.metadatas, query)
  }

  /** The `Select` that assigns every hit its hybrid score, overwriting its merged score. */
  function WithHybridScores(hits: seq<Hit>, query: string): (r: seq<Hit>)
    ensures |r| == |hits|
    ensures forall i :: 0 <= i < |hits| ==> r[i] == hits[i].(score := HybridScore(hits[i], query))
  {
    seq(|hits|, i requires 0 <= i < |hits| => hits[i].(score := HybridScore(hits[i], query)))
  }

  // ---------------------------------------------------------------------------
  // Step 3 (continued): sort and take
  // ---------------------------------------------------------------------------

  /** Sort keys for `OrderByDescending(doc => doc.Score)`: a stable ascending sort on the
      negated scores. */
  function NegatedScores(hits: seq<Hit>): (keys: seq<real>)
    ensures |keys| == |hits|
    ensures forall i :: 0 <= i < |hits| ==> keys[i] == -hits[i].score
  {
    seq(|hits|, i requires 0 <= i < |hits| => -hits[i].score)
  }

  function SortByScoreDescending(hits: seq<Hit>): seq<Hit> {
    SortPositionsCorrect(NegatedScores(hits));
    Apply(hits, SortPositions(NegatedScores(hits)))
  }

  /** The stable descending sort: a rearrangement of the hits, scores non-increasing, and hits
      with equal scores in their original relative order. */
  lemma SortByScoreDescendingSpec(hits: seq<Hit>)
    ensures multiset(SortByScoreDescending(hits)) == multiset(hits)
    ensures var idx := SortPositions(NegatedScores(hits));
      && IsPermutation(idx, |hits|)
      && SortByScoreDescending(hits) == Apply(hits, idx)
      && forall p, q :: 0 <= p < q < |hits| ==>
           hits[idx[p]].score > hits[idx[q]].score
           || (hits[idx[p]].score == hits[idx[q]].score && idx[p] < idx[q])
    ensures forall p, q :: 0 <= p < q < |hits| ==>
              SortByScoreDescending(hits)[p].score >= SortByScoreDescending(hits)[q].score
  {
    var keys := NegatedScores(hits);
    SortPositionsCorrect(keys);
    ApplySortPositionsPermutes(hits, keys);
    var idx := SortPositions(keys);
    forall p, q | 0 <= p < q < |hits|
      ensures hits[idx[p]].score > hits[idx[q]].score
           || (hits[idx[p]].score == hits[idx[q]].score && idx[p] < idx[q])
    {
      assert Before(keys, idx[p], idx[q]);
    }
  }

  /** `Take(count)`: the first `count` elements, none when `count` is not positive. */
  function Take(hits: seq<Hit>, count: int): (r: seq<Hit>)
    ensures |r| == if count <= 0 then 0 else if count < |hits| then count else |hits|
    ensures r <= hits
  {
    if count <= 0 then [] else if count < |hits| then hits[..count] else hits
  }

  // ---------------------------------------------------------------------------
  // Step 4: LLM reranking (ordering part)
  // ---------------------------------------------------------------------------

  /** `List<string>.IndexOf`: the first position of `x`, or -1. */
  function IndexOf(list: seq<string>, x: string): (r: int)
    ensures -1 <= r < |list|
    ensures r == -1 <==> x !in list
    ensures r >= 0 ==> list[r] == x && forall j :: 0 <= j < r ==> list[j] != x
  {
    if |list| == 0 then -1
    else if list[0] == x then 0
    else
      var k := IndexOf(list[1..], x);
      if k == -1 then -1 else k + 1
  }

  function RankKeys(results: seq<Hit>, rankedOrder: seq<string>): (keys: seq<real>)
    ensures |keys| == |results|
    ensures forall i :: 0 <= i < |results| ==> keys[i] == IndexOf(rankedOrder, results[i].id) as real
  {
    seq(|results|, i requires 0 <= i < |results| => IndexOf(rankedOrder, results[i].id) as real)
  }

  /** `results.OrderBy(r => rankedOrder.IndexOf(r.Id))`. */
  function LlmOrder(results: seq<Hit>, rankedOrder: seq<string>): seq<Hit> {
    SortPositionsCorrect(RankKeys(results, rankedOrder));
    Apply(results, SortPositions(RankKeys(results, rankedOrder)))
  }

  /** The LLM reordering rearranges its input; hits whose identifier the ranking does not list
      (index -1) come first, the others follow in ranking order, and hits with the same index
      keep their relative order. */
  lemma LlmOrderSpec(results: seq<Hit>, rankedOrder: seq<string>)
    ensures multiset(LlmOrder(results, rankedOrder)) == multiset(results)
    ensures var idx := SortPositions(RankKeys(results, rankedOrder));
      && IsPermutation(idx, |results|)
      && LlmOrder(results, rankedOrder) == Apply(results, idx)
      && forall p, q :: 0 <= p < q < |results| ==>
           var a, b := IndexOf(rankedOrder, results[idx[p]].id), IndexOf(rankedOrder, results[idx[q]].id);
           a < b || (a == b && idx[p] < idx[q])
    ensures var r := LlmOrder(results, rankedOrder);
      forall p, q :: 0 <= p < q < |r| ==>
        IndexOf(rankedOrder, r[p].id) <= IndexOf(rankedOrder, r[q].id)
        && (r[q].id !in rankedOrder ==> r[p].id !in rankedOrder)
  {
    var keys := RankKeys(results, rankedOrder);
    SortPositionsCorrect(keys);
    ApplySortPositionsPermutes(results, keys);
    var idx := SortPositions(keys);
    forall p, q | 0 <= p < q < |results|
      ensures var a, b := IndexOf(rankedOrder, results[idx[p]].id), IndexOf(rankedOrder, results[idx[q]].id);
              a < b || (a == b && idx[p] < idx[q])
    {
      assert Before(keys, idx[p], idx[q]);
    }
  }

  // ---------------------------------------------------------------------------
  // The whole call
  // ---------------------------------------------------------------------------

  /** Steps 1 to 3: merged, rescored, sorted and cut to `topResults`. */
  function HeuristicRanking(vectorHits: seq<Hit>, keywordDocs: seq<ElasticSearchDocument>,
                            query: string, topResults: int): seq<Hit>
  {
    var merged := Merge(vectorHits, ConvertKeywordResults(keywordDocs));
    Take(SortByScoreDescending(WithHybridScores(merged, query)), topResults)
  }

  /** What `RerankDocuments` computes on a cache miss. */
  function RerankResult(vectorHits: seq<Hit>, keywordDocs: seq<ElasticSearchDocument>, query: string,
                        topResults: int, enableLLMRerank: bool, rankedOrder: seq<string>): seq<Hit>
  {
    var ranked := HeuristicRanking(vectorHits, keywordDocs, query, topResults);
    if enableLLMRerank then LlmOrder(ranked, rankedOrder) else ranked
  }

  /** `MergeResults`: the dictionary is filled from the vector hits, then from the keyword
      hits. `order` is the dictionary's enumeration order. */
  method MergeResults(vectorHits: seq<Hit>, keywordHits: seq<Hit>) returns (merged: seq<Hit>)
    ensures merged == Merge(vectorHits, keywordHits)
  {
    var entries: map<string, Hit> := map[];
    var order: seq<string> := [];
    assert Ids([]) == [];
    for i := 0 to |vectorHits|
      invariant Tracks(entries, order, AddVectorHits([], vectorHits[..i]))
    {
      var result := vectorHits[i];
      VectorStep(entries, order, AddVectorHits([], vectorHits[..i]), result);
      assert vectorHits[..i + 1][..i] == vectorHits[..i];
      if result.id !in entries {
        entries := entries[result.id := result];
        order := order + [result.id];
      }
    }
    assert vectorHits[..|vectorHits|] == vectorHits;
    for i := 0 to |keywordHits|
      invariant Tracks(entries, order, AddKeywordHits(AddVectorHits([], vectorHits), keywordHits[..i]))
    {
      var result := keywordHits[i];
      KeywordStep(entries, order, AddKeywordHits(AddVectorHits([], vectorHits), keywordHits[..i]), result);
      assert keywordHits[..i + 1][..i] == keywordHits[..i];
      if result.id in entries {
        var existing := entries[result.id];
        entries := entries[result.id := existing.(score := Max(existing.score, result.score))];
      } else {
        entries := entries[result.id := result];
        order := order + [result.id];
      }
    }
    assert keywordHits[..|keywordHits|] == keywordHits;
    merged := seq(|order|, p requires 0 <= p < |order| && order[p] in entries => entries[order[p]]);
  }

  /** The dictionary `entries`, enumerated in `order`, holds exactly the list `spec`. */
  ghost predicate Tracks(entries: map<string, Hit>, order: seq<string>, spec: seq<Hit>) {
    && |order| == |spec|
    && DistinctIds(spec)
    && (forall p :: 0 <= p < |spec| ==> order[p] == spec[p].id && order[p] in entries && entries[order[p]] == spec[p])
    && (forall id :: id in entries <==> id in Ids(spec))
  }

  lemma VectorStep(entries: map<string, Hit>, order: seq<string>, spec: seq<Hit>, h: Hit)
    requires Tracks(entries, order, spec)
    ensures h.id in entries ==> Tracks(entries, order, AddVectorHit(spec, h))
    ensures h.id !in entries ==> Tracks(entries[h.id := h], order + [h.id], AddVectorHit(spec, h))
  {
    IdsOfAppend(spec, h);
  }

  lemma KeywordStep(entries: map<string, Hit>, order: seq<string>, spec: seq<Hit>, h: Hit)
    requires Tracks(entries, order, spec)
    ensures h.id in entries ==>
      Tracks(entries[h.id := entries[h.id].(score := Max(entries[h.id].score, h.score))], order, AddKeywordHit(spec, h))
    ensures h.id !in entries ==> Tracks(entries[h.id := h], order + [h.id], AddKeywordHit(spec, h))
  {
    IdsOfAppend(spec, h);
    if h.id in entries {
      KeywordStepExisting(entries, order, spec, h);
    }
  }

  lemma KeywordStepExisting(entries: map<string, Hit>, order: seq<string>, spec: seq<Hit>, h: Hit)
    requires Tracks(entries, order, spec) && h.id in entries
    ensures Tracks(entries[h.id := entries[h.id].(score := Max(entries[h.id].score, h.score))], order, AddKeywordHit(spec, h))
  {
    var q := FindId(spec, h.id).value;
    assert order[q] == h.id;
    var e := spec[q].(score := Max(spec[q].score, h.score));
    assert AddKeywordHit(spec, h) == spec[q := e];
    UpdateTracks(entries, order, spec, q, e);
  }

  /** Replacing one entry by one with the same identifier, in the dictionary and in the list. */
  lemma UpdateTracks(entries: map<string, Hit>, order: seq<string>, spec: seq<Hit>, q: nat, e: Hit)
    requires Tracks(entries, order, spec) && q < |spec| && e.id == spec[q].id
    ensures Tracks(entries[e.id := e], order, spec[q := e])
  {
    var spec' := spec[q := e];
    var entries' := entries[e.id := e];
    assert Ids(spec') == Ids(spec) by {
      forall p | 0 <= p < |spec| ensures Ids(spec')[p] == Ids(spec)[p] {
        assert spec'[p].id == spec[p].id;
      }
    }
    forall p | 0 <= p < |spec'|
      ensures order[p] == spec'[p].id && order[p] in entries' && entries'[order[p]] == spec'[p]
    {
      if p != q {
        assert spec[p].id != spec[q].id;
      }
    }
  }

  /** `RerankDocuments`: a cached list for the key is returned as it is; otherwise the list is
      computed, stored under the key and returned. `rankedOrder` is the LLM's ranking of the
      heuristic results. */
  method RerankDocuments(cache: RerankCache, vectorDbResults: seq<Hit>, keywordResults: seq<ElasticSearchDocument>,
                         query: string, topResults: int, enableLLMRerank: bool, rankedOrder: seq<string>)
    returns (results: seq<Hit>, cache': RerankCache)
    ensures RerankKey(query, topResults) in cache ==>
              results == cache[RerankKey(query, topResults)] && cache' == cache
    ensures RerankKey(query, topResults) !in cache ==>
              results == RerankResult(vectorDbResults, keywordResults, query, topResults, enableLLMRerank, rankedOrder)
              && cache' == cache[RerankKey(query, topResults) := results]
  {
    var cacheKey := RerankKey(query, topResults);
    if cacheKey in cache {
      return cache[cacheKey], cache;
    }
    var keywordResultsConverted := ConvertKeywordResults(keywordResults);
    var combinedResults := MergeResults(vectorDbResults, keywordResultsConverted);
    var scoredResults := Take(SortByScoreDescending(WithHybridScores(combinedResults, query)), topResults);
    if enableLLMRerank {
      scoredResults := LlmOrder(scoredResults, rankedOrder);
    }
    results := scoredResults;
    cache' := cache[cacheKey := results];
  }

  // ---------------------------------------------------------------------------
  // Properties of the whole computation
  // ---------------------------------------------------------------------------

  lemma ConvertedIds(docs: seq<ElasticSearchDocument>)
    ensures forall id :: id in Ids(ConvertKeywordResults(docs)) <==> exists j :: 0 <= j < |docs| && docs[j].id == id
  {
    var hits := ConvertKeywordResults(docs);
    forall id ensures id in Ids(hits) <==> exists j :: 0 <= j < |docs| && docs[j].id == id {
      if id in Ids(hits) {
        var j :| 0 <= j < |hits| && Ids(hits)[j] == id;
        assert docs[j].id == id;
      }
    }
  }

  /** A keyword document whose identifier a vector hit already has only raises that entry's
      score to max(score, 0.5); text, distance, metadata and kind stay those of the vector hit.
      A keyword document with a new identifier becomes the entry as converted: its content as
      text, score 0.5, distance 0, kind `SourceDocument` and no metadata. */
  lemma MergeWithKeywordDocs(vectorHits: seq<Hit>, keywordDocs: seq<ElasticSearchDocument>, id: string)
    requires id in Ids(vectorHits) || exists j :: 0 <= j < |keywordDocs| && keywordDocs[j].id == id
    ensures id in Ids(Merge(vectorHits, ConvertKeywordResults(keywordDocs)))
    ensures var e := EntryOf(Merge(vectorHits, ConvertKeywordResults(keywordDocs)), id);
      if id in Ids(vectorHits) then
        var v := vectorHits[FindId(vectorHits, id).value];
        e == v.(score := if exists j :: 0 <= j < |keywordDocs| && keywordDocs[j].id == id
                         then Max(v.score, KeywordInitialScore) else v.score)
      else
        var d := keywordDocs[FindId(ConvertKeywordResults(keywordDocs), id).value];
        && e == ToSearchResult(d)
        && e.originalText == d.content && e.score == 0.5 && e.distance == 0.0
        && e.dataType == SourceDocument && e.metadatas == None
  {
    var hits := ConvertKeywordResults(keywordDocs);
    ConvertedIds(keywordDocs);
    MaxScoreUniform(0.0, hits, id, KeywordInitialScore);
    if id in Ids(vectorHits) {
      var i := FindId(vectorHits, id).value;
      MergeVectorEntry(vectorHits, hits, i);
      MaxScoreUniform(vectorHits[i].score, hits, id, KeywordInitialScore);
    } else {
      var j := FindId(hits, id).value;
      MergeKeywordEntry(vectorHits, hits, j);
      MaxScoreUniform(KeywordInitialScore, hits, id, KeywordInitialScore);
    }
  }

  /** The heuristic ranking holds min(topResults, number of distinct identifiers) hits, none
      when topResults is not positive, in non-increasing score order; every score is the hit's
      own hybrid score, whatever score the merge had given it; identifiers are distinct and
      come from the inputs. */
  lemma HeuristicRankingSpec(vectorHits: seq<Hit>, keywordDocs: seq<ElasticSearchDocument>,
                             query: string, topResults: int)
    ensures var merged := Merge(vectorHits, ConvertKeywordResults(keywordDocs));
            var r := HeuristicRanking(vectorHits, keywordDocs, query, topResults);
      && |r| == (if topResults <= 0 then 0 else if topResults < |merged| then topResults else |merged|)
      && |merged| == |FirstOccurrences(Ids(vectorHits) + Ids(ConvertKeywordResults(keywordDocs)))|
      && (forall p, q :: 0 <= p < q < |r| ==> r[p].score >= r[q].score)
      && (forall p :: 0 <= p < |r| ==> r[p].score == HybridScore(r[p], query))
      && (forall p :: 0 <= p < |r| ==> exists m :: 0 <= m < |merged| && r[p] == merged[m].(score := r[p].score))
      && DistinctIds(r)
      && (forall p :: 0 <= p < |r| ==>
            r[p].id in Ids(vectorHits) || exists j :: 0 <= j < |keywordDocs| && keywordDocs[j].id == r[p].id)
  {
    HeuristicRankingOrder(vectorHits, keywordDocs, query, topResults);
    HeuristicRankingMembers(vectorHits, keywordDocs, query, topResults);
  }

  /** The length and order part of `HeuristicRankingSpec`. */
  lemma HeuristicRankingOrder(vectorHits: seq<Hit>, keywordDocs: seq<ElasticSearchDocument>,
                              query: string, topResults: int)
    ensures var merged := Merge(vectorHits, ConvertKeywordResults(keywordDocs));
            var r := HeuristicRanking(vectorHits, keywordDocs, query, topResults);
      && |r| == (if topResults <= 0 then 0 else if topResults < |merged| then topResults else |merged|)
      && |merged| == |FirstOccurrences(Ids(vectorHits) + Ids(ConvertKeywordResults(keywordDocs)))|
      && (forall p, q :: 0 <= p < q < |r| ==> r[p].score >= r[q].score)
      && (forall p :: 0 <= p < |r| ==> r[p].score == HybridScore(r[p], query))
  {
    var keywordHits := ConvertKeywordResults(keywordDocs);
    var merged := Merge(vectorHits, keywordHits);
    MergeIds(vectorHits, keywordHits);
    MergeDistinctAndComplete(vectorHits, keywordHits);
    var scored := WithHybridScores(merged, query);
    var sorted := SortByScoreDescending(scored);
    SortByScoreDescendingSpec(scored);
    var r := HeuristicRanking(vectorHits, keywordDocs, query, topResults);
    assert r <= sorted;
    forall p | 0 <= p < |r| ensures r[p] == sorted[p] {
    }
  }

  /** The membership part of `HeuristicRankingSpec`. */
  lemma HeuristicRankingMembers(vectorHits: seq<Hit>, keywordDocs: seq<ElasticSearchDocument>,
                                query: string, topResults: int)
    ensures var merged := Merge(vectorHits, ConvertKeywordResults(keywordDocs));
            var r := HeuristicRanking(vectorHits, keywordDocs, query, topResults);
      && (forall p :: 0 <= p < |r| ==> exists m :: 0 <= m < |merged| && r[p] == merged[m].(score := r[p].score))
      && DistinctIds(r)
      && (forall p :: 0 <= p < |r| ==>
            r[p].id in Ids(vectorHits) || exists j :: 0 <= j < |keywordDocs| && keywordDocs[j].id == r[p].id)
  {
    var keywordHits := ConvertKeywordResults(keywordDocs);
    var merged := Merge(vectorHits, keywordHits);
    MergeIds(vectorHits, keywordHits);
    MergeDistinctAndComplete(vectorHits, keywordHits);
    ConvertedIds(keywordDocs);
    var scored := WithHybridScores(merged, query);
    var sorted := SortByScoreDescending(scored);
    SortByScoreDescendingSpec(scored);
    var idx := SortPositions(NegatedScores(scored));
    var r := HeuristicRanking(vectorHits, keywordDocs, query, topResults);
    assert r <= sorted;
    forall p | 0 <= p < |r|
      ensures r[p] == scored[idx[p]] && idx[p] < |merged|
    {
      assert r[p] == sorted[p];
    }
    forall p, q | 0 <= p < q < |r| ensures r[p].id != r[q].id {
      assert idx[p] != idx[q];
      assert merged[idx[p]].id != merged[idx[q]].id;
    }
    forall p | 0 <= p < |r|
      ensures r[p].id in Ids(vectorHits) || exists j :: 0 <= j < |keywordDocs| && keywordDocs[j].id == r[p].id
    {
      assert r[p].id == Ids(merged)[idx[p]];
    }
    forall p | 0 <= p < |r| ensures exists m :: 0 <= m < |merged| && r[p] == merged[m].(score := r[p].score) {
      assert r[p] == merged[idx[p]].(score := r[p].score);
    }
  }

  /** With LLM reranking the result is a rearrangement of the heuristic ranking, so it has the
      same length, the same hits and distinct identifiers; without, it is the heuristic
      ranking itself. */
  lemma RerankResultSpec(vectorHits: seq<Hit>, keywordDocs: seq<ElasticSearchDocument>, query: string,
                         topResults: int, enableLLMRerank: bool, rankedOrder: seq<string>)
    ensures var ranked := HeuristicRanking(vectorHits, keywordDocs, query, topResults);
            var r := RerankResult(vectorHits, keywordDocs, query, topResults, enableLLMRerank, rankedOrder);
      && multiset(r) == multiset(ranked)
      && |r| == |ranked|
      && DistinctIds(r)
      && (!enableLLMRerank ==> r == ranked)
      && (enableLLMRerank ==> forall p, q :: 0 <= p < q < |r| ==>
            (r[q].id !in rankedOrder ==> r[p].id !in rankedOrder)
            && IndexOf(rankedOrder, r[p].id) <= IndexOf(rankedOrder, r[q].id))
  {
    var ranked := HeuristicRanking(vectorHits, keywordDocs, query, topResults);
    HeuristicRankingSpec(vectorHits, keywordDocs, query, topResults);
    LlmOrderSpec(ranked, rankedOrder);
    var r := RerankResult(vectorHits, keywordDocs, query, topResults, enableLLMRerank, rankedOrder);
    if enableLLMRerank {
      var idx := SortPositions(RankKeys(ranked, rankedOrder));
      forall p, q | 0 <= p < q < |r| ensures r[p].id != r[q].id {
        assert r[p] == ranked[idx[p]] && r[q] == ranked[idx[q]];
      }
    }
  }
}
