/**
 * The bag-of-words embedding (`TfidfEmbeddingService`). The service keeps a vocabulary that
 * lives as long as the service: a token seen for the first time gets the slot
 * `vocab.Count % 1024`, and an embedding counts how many tokens of the text fall into each of
 * the 1024 slots, then scales the counts to unit length.
 */
module Tfidf {
  import opened Text
  import opened Sequences

  const VectorSize: nat := 1024

  // ---------------------------------------------------------------------------
  // Tokenizer
  // ---------------------------------------------------------------------------

  /** `Regex.Split(s, @"\W+")`: the pieces between maximal runs of non-word characters (a run
      at either end gives an empty first or last piece). */
  function RegexSplitNonWord(s: string): seq<string> {
    SplitWhere(CollapseRuns(s, IsNonWordChar), IsNonWordChar)
  }

  /** `string.IsNullOrWhiteSpace` for a non-null string. */
  predicate IsBlank(s: string) {
    forall i :: 0 <= i < |s| ==> IsWhiteSpace(s[i])
  }

  /** `.Where(t => !string.IsNullOrWhiteSpace(t))`. */
  function DropBlank(pieces: seq<string>): (r: seq<string>)
    ensures |r| <= |pieces|
    ensures forall k :: 0 <= k < |r| ==> !IsBlank(r[k]) && r[k] in pieces
    decreases |pieces|
  {
    if |pieces| == 0 then []
    else
      var rest := DropBlank(pieces[..|pieces| - 1]);
      if IsBlank(pieces[|pieces| - 1]) then rest else rest + [pieces[|pieces| - 1]]
  }

  /** `TokenizeText`, the one definition of the tokens that `GenerateEmbedding` counts. */
  function Tokenize(text: string): seq<string> {
    DropBlank(RegexSplitNonWord(Lower(text)))
  }

  /** Tokens are non-empty, lower case and made of word characters only. */
  lemma TokenizeSpec(text: string)
    ensures forall k :: 0 <= k < |Tokenize(text)| ==> |Tokenize(text)[k]| > 0
    ensures forall k, j :: 0 <= k < |Tokenize(text)| && 0 <= j < |Tokenize(text)[k]| ==>
              IsWordChar(Tokenize(text)[k][j]) && !IsUpper(Tokenize(text)[k][j])
  {
    var lowered := Lower(text);
    var pieces := RegexSplitNonWord(lowered);
    var tokens := Tokenize(text);
    CollapseRunsChars(lowered, IsNonWordChar);
    forall k, j | 0 <= k < |tokens| && 0 <= j < |tokens[k]|
      ensures IsWordChar(tokens[k][j]) && !IsUpper(tokens[k][j])
    {
      var c := tokens[k][j];
      assert tokens[k] in pieces;
      var m :| 0 <= m < |pieces| && pieces[m] == tokens[k];
      assert !IsNonWordChar(c);
      assert c in CollapseRuns(lowered, IsNonWordChar) by {
        SplitPiecesFrom(CollapseRuns(lowered, IsNonWordChar), IsNonWordChar, m, j);
      }
    }
    forall k | 0 <= k < |tokens| ensures |tokens[k]| > 0 {
      assert !IsBlank(tokens[k]);
    }
  }

  /** Every character of a collapsed string is ' ' or a character of the original. */
  lemma {:induction false} CollapseRunsChars(s: string, isSep: char -> bool)
    ensures forall c :: c in CollapseRuns(s, isSep) ==> c == ' ' || c in s
    decreases |s|
  {
    if |s| > 0 {
      if isSep(s[0]) {
        var d := DropWhile(s[1..], isSep);
        CollapseRunsChars(d, isSep);
        assert forall c :: c in d ==> c in s by {
          assert d == s[1..][|s| - 1 - |d|..];
        }
      } else {
        CollapseRunsChars(s[1..], isSep);
      }
    }
  }

  /** Each character of a piece of `SplitWhere(s, isSep)` is a character of `s`. */
  lemma {:induction false} SplitPiecesFrom(s: string, isSep: char -> bool, m: nat, j: nat)
    requires m < |SplitWhere(s, isSep)| && j < |SplitWhere(s, isSep)[m]|
    ensures SplitWhere(s, isSep)[m][j] in s
    decreases |s|
  {
    if |s| > 0 {
      var rest := SplitWhere(s[1..], isSep);
      if isSep(s[0]) {
        assert SplitWhere(s, isSep) == [""] + rest;
        SplitPiecesFrom(s[1..], isSep, m - 1, j);
      } else if m == 0 && j == 0 {
        assert SplitWhere(s, isSep)[0][0] == s[0];
      } else if m == 0 {
        assert SplitWhere(s, isSep)[0][j] == rest[0][j - 1];
        SplitPiecesFrom(s[1..], isSep, 0, j - 1);
      } else {
        assert SplitWhere(s, isSep)[m] == rest[m];
        SplitPiecesFrom(s[1..], isSep, m, j);
      }
    }
  }

  // ---------------------------------------------------------------------------
  // Vocabulary and counts
  // ---------------------------------------------------------------------------

  /** The vocabulary after the tokens are seen in order: a new token gets the slot
      `vocab.Count % 1024`, a known one keeps its slot. */
  function AddTokens(vocab: map<string, int>, tokens: seq<string>): map<string, int>
    decreases |tokens|
  {
    if |tokens| == 0 then vocab
    else AddToken(AddTokens(vocab, tokens[..|tokens| - 1]), tokens[|tokens| - 1])
  }

  /** One token seen: a new token gets the slot `vocab.Count % 1024`. */
  function AddToken(vocab: map<string, int>, t: string): map<string, int> {
    if t in vocab then vocab else vocab[t := |vocab| % VectorSize]
  }

  /** `order` lists the vocabulary's tokens in the order they were added, and each token's slot
      is its position modulo 1024. */
  ghost predicate VocabInvariant(vocab: map<string, int>, order: seq<string>) {
    && |vocab| == |order|
    && NoDuplicates(order)
    && (forall t :: t in vocab <==> t in order)
    && (forall k :: 0 <= k < |order| ==> vocab[order[k]] == k % VectorSize)
  }

  /** The number of tokens whose slot is `j`. */
  function Occurrences(vocab: map<string, int>, tokens: seq<string>, j: int): nat
    decreases |tokens|
  {
    if |tokens| == 0 then 0
    else
      var t := tokens[|tokens| - 1];
      Occurrences(vocab, tokens[..|tokens| - 1], j) + (if t in vocab && vocab[t] == j then 1 else 0)
  }

  /** The count vector before normalisation, built token by token as the loop builds it: each
      token with a slot adds one to that slot. */
  function Counts(vocab: map<string, int>, tokens: seq<string>): (v: seq<real>)
    ensures |v| == VectorSize
    decreases |tokens|
  {
    if |tokens| == 0 then seq(VectorSize, _ => 0.0)
    else
      var c := Counts(vocab, tokens[..|tokens| - 1]);
      var t := tokens[|tokens| - 1];
      if t in vocab && 0 <= vocab[t] < VectorSize then c[vocab[t] := c[vocab[t]] + 1.0] else c
  }

  function Sum(v: seq<real>): real
    decreases |v|
  {
    if |v| == 0 then 0.0 else Sum(v[..|v| - 1]) + v[|v| - 1]
  }

  function Square(x: real): real {
    x * x
  }

  /** `vector.Sum(v => v * v)`. */
  function SumOfSquares(v: seq<real>): real
    decreases |v|
  {
    if |v| == 0 then 0.0 else SumOfSquares(v[..|v| - 1]) + Square(v[|v| - 1])
  }

  /** `Normalize`: `sqrt` is the square root the platform computes. The vector is returned
      unchanged when its length is 0, and divided by its length otherwise. */
  function Normalized(v: seq<real>, sqrt: real -> real): (r: seq<real>)
    ensures |r| == |v|
  {
    var len := sqrt(SumOfSquares(v));
    if len == 0.0 then v else seq(|v|, i requires 0 <= i < |v| => v[i] / len)
  }

  // --- vocabulary lemmas ---

  /** Adding tokens keeps the invariant: the new tokens are appended to `order` in first-seen
      order. */
  lemma {:induction false} AddTokensInvariant(vocab: map<string, int>, order: seq<string>, tokens: seq<string>)
    requires VocabInvariant(vocab, order)
    ensures VocabInvariant(AddTokens(vocab, tokens), AppendNew(order, tokens))
    decreases |tokens|
  {
    if |tokens| > 0 {
      var init := tokens[..|tokens| - 1];
      AddTokensInvariant(vocab, order, init);
      AddTokenInvariant(AddTokens(vocab, init), AppendNew(order, init), tokens[|tokens| - 1]);
    }
  }

  lemma AddTokenInvariant(vocab: map<string, int>, order: seq<string>, t: string)
    requires VocabInvariant(vocab, order)
    ensures t in vocab ==> VocabInvariant(vocab, order)
    ensures t !in vocab ==> VocabInvariant(vocab[t := |vocab| % VectorSize], order + [t])
  {
  }

  /** Existing entries never change, and the vocabulary's tokens are the old ones plus the new
      tokens; so a token keeps its slot in every later embedding. */
  lemma {:induction false} AddTokensKeeps(vocab: map<string, int>, tokens: seq<string>)
    ensures forall t :: t in AddTokens(vocab, tokens) <==> t in vocab || t in tokens
    ensures forall t :: t in vocab ==> AddTokens(vocab, tokens)[t] == vocab[t]
    decreases |tokens|
  {
    if |tokens| > 0 {
      var init := tokens[..|tokens| - 1];
      AddTokensKeeps(vocab, init);
      assert tokens == init + [tokens[|tokens| - 1]];
    }
  }

  /** Every slot lies in [0, 1024). */
  lemma SlotsInRange(vocab: map<string, int>, order: seq<string>)
    requires VocabInvariant(vocab, order)
    ensures forall t :: t in vocab ==> 0 <= vocab[t] < VectorSize
  {
    forall t | t in vocab ensures 0 <= vocab[t] < VectorSize {
      var k :| 0 <= k < |order| && order[k] == t;
    }
  }

  /** While the vocabulary has at most 1024 entries, the k-th token added has slot k, so
      distinct tokens have distinct slots. */
  lemma SlotsWhileSmall(vocab: map<string, int>, order: seq<string>)
    requires VocabInvariant(vocab, order) && |order| <= VectorSize
    ensures forall k :: 0 <= k < |order| ==> vocab[order[k]] == k
    ensures forall a, b :: a in vocab && b in vocab && a != b ==> vocab[a] != vocab[b]
  {
    forall k | 0 <= k < |order| ensures vocab[order[k]] == k {
      assert k % VectorSize == k;
    }
    forall a, b | a in vocab && b in vocab && a != b ensures vocab[a] != vocab[b] {
      var i :| 0 <= i < |order| && order[i] == a;
      var j :| 0 <= j < |order| && order[j] == b;
      assert vocab[a] == i && vocab[b] == j;
    }
  }

  // --- count lemmas ---

  /** Slot `j` of the count vector is the number of tokens whose slot is `j`. */
  lemma {:induction false} CountsAreOccurrences(vocab: map<string, int>, tokens: seq<string>)
    ensures forall j :: 0 <= j < VectorSize ==> Counts(vocab, tokens)[j] == Occurrences(vocab, tokens, j) as real
    decreases |tokens|
  {
    if |tokens| > 0 {
      CountsAreOccurrences(vocab, tokens[..|tokens| - 1]);
    }
  }

  lemma {:induction false} CountsAgree(v1: map<string, int>, v2: map<string, int>, tokens: seq<string>)
    requires forall k :: 0 <= k < |tokens| ==> tokens[k] in v1 && tokens[k] in v2 && v1[tokens[k]] == v2[tokens[k]]
    ensures Counts(v1, tokens) == Counts(v2, tokens)
    decreases |tokens|
  {
    if |tokens| > 0 {
      CountsAgree(v1, v2, tokens[..|tokens| - 1]);
    }
  }

  /** After one more token, the count of its slot grows by one and the others stay. */
  lemma CountsStep(before: map<string, int>, tokens: seq<string>, i: nat)
    requires i < |tokens| && forall k :: 0 <= k < i ==> tokens[k] in before
    requires var after := AddToken(before, tokens[i]); 0 <= after[tokens[i]] < VectorSize
    ensures forall k :: 0 <= k <= i ==> tokens[k] in AddToken(before, tokens[i])
    ensures var after := AddToken(before, tokens[i]);
      var c := Counts(before, tokens[..i]);
      Counts(after, tokens[..i + 1]) == c[after[tokens[i]] := c[after[tokens[i]]] + 1.0]
  {
    var after := AddToken(before, tokens[i]);
    assert tokens[..i + 1][..i] == tokens[..i];
    CountsAgree(before, after, tokens[..i]);
  }

  lemma SumUpdate(v: seq<real>, j: nat, x: real)
    requires j < |v|
    ensures Sum(v[j := v[j] + x]) == Sum(v) + x
    decreases |v|
  {
    if j < |v| - 1 {
      assert v[j := v[j] + x][..|v| - 1] == v[..|v| - 1][j := v[j] + x];
      SumUpdate(v[..|v| - 1], j, x);
    } else {
      assert v[j := v[j] + x][..|v| - 1] == v[..|v| - 1];
    }
  }

  /** When every token has a slot in range, the counts add up to the number of tokens. */
  lemma {:induction false} CountsSum(vocab: map<string, int>, tokens: seq<string>)
    requires forall k :: 0 <= k < |tokens| ==> tokens[k] in vocab && 0 <= vocab[tokens[k]] < VectorSize
    ensures Sum(Counts(vocab, tokens)) == |tokens| as real
    decreases |tokens|
  {
    if |tokens| == 0 {
      SumZero(Counts(vocab, tokens));
    } else {
      var init := tokens[..|tokens| - 1];
      var t := tokens[|tokens| - 1];
      CountsSum(vocab, init);
      SumUpdate(Counts(vocab, init), vocab[t], 1.0);
    }
  }

  lemma {:induction false} SumZero(v: seq<real>)
    requires forall i :: 0 <= i < |v| ==> v[i] == 0.0
    ensures Sum(v) == 0.0 && SumOfSquares(v) == 0.0
    decreases |v|
  {
    if |v| > 0 {
      SumZero(v[..|v| - 1]);
    }
  }

  /** The sum of squares is never negative and is 0 only for the zero vector. */
  lemma {:induction false} SumOfSquaresZero(v: seq<real>)
    ensures SumOfSquares(v) >= 0.0
    ensures SumOfSquares(v) == 0.0 <==> forall i :: 0 <= i < |v| ==> v[i] == 0.0
    decreases |v|
  {
    if |v| > 0 {
      var init := v[..|v| - 1];
      SumOfSquaresZero(init);
      SquareSign(v[|v| - 1]);
      assert forall i :: 0 <= i < |init| ==> init[i] == v[i];
    }
  }

  lemma SquareSign(x: real)
    ensures Square(x) >= 0.0
    ensures x == 0.0 || Square(x) > 0.0
  {
    ProductSign(x, Square(x));
  }

  // The product is passed as a separate value `p`: the solver handles `p` as an atom far more
  // reliably than the product term itself.
  lemma ProductSign(x: real, p: real)
    requires p == x * x
    ensures p >= 0.0
    ensures x == 0.0 || p > 0.0
  {
    if x < 0.0 {
      NegatedProduct(x, p);
      PositiveProduct(-x, -x, p);
    } else if x > 0.0 {
      PositiveProduct(x, x, p);
    }
  }

  lemma PositiveProduct(a: real, b: real, p: real)
    requires a > 0.0 && b > 0.0 && p == a * b
    ensures p > 0.0
  {
  }

  lemma NegatedProduct(x: real, p: real)
    requires p == x * x
    ensures p == (-x) * (-x)
  {
  }

  /** A text without tokens gives the zero vector, which `Normalize` returns unchanged. */
  lemma NoTokensZeroVector(vocab: map<string, int>, text: string, sqrt: real -> real)
    requires Tokenize(text) == []
    requires sqrt(0.0) == 0.0
    ensures forall j :: 0 <= j < VectorSize ==> Counts(vocab, Tokenize(text))[j] == 0.0
    ensures Normalized(Counts(vocab, Tokenize(text)), sqrt) == Counts(vocab, Tokenize(text))
  {
    SumZero(Counts(vocab, Tokenize(text)));
  }

  /** Only the zero vector is left unscaled by an exact square root. */
  lemma NormalizedUnchangedOnlyForZero(v: seq<real>, sqrt: real -> real)
    requires forall x :: x > 0.0 ==> sqrt(x) > 0.0
    ensures sqrt(SumOfSquares(v)) == 0.0 ==> forall i :: 0 <= i < |v| ==> v[i] == 0.0
  {
    SumOfSquaresZero(v);
  }

  /** What holds after the first `i` tokens of the counting loop, started from `vocab0`: the
      vocabulary has seen them, every slot is in range, and `counts` counts them. */
  ghost predicate CountingInvariant(vocab0: map<string, int>, tokens: seq<string>, i: nat,
                                    vocab: map<string, int>, counts: seq<real>)
  {
    && i <= |tokens|
    && vocab == AddTokens(vocab0, tokens[..i])
    && (forall t :: t in vocab ==> 0 <= vocab[t] < VectorSize)
    && (forall k :: 0 <= k < i ==> tokens[k] in vocab)
    && counts == Counts(vocab, tokens[..i])
  }

  /** One iteration of the counting loop keeps `CountingInvariant`. */
  lemma CountingStep(vocab0: map<string, int>, tokens: seq<string>, i: nat, vocab: map<string, int>, counts: seq<real>)
    requires i < |tokens| && CountingInvariant(vocab0, tokens, i, vocab, counts)
    ensures var t := tokens[i];
      var next := AddToken(vocab, t);
      && 0 <= next[t] < |counts|
      && CountingInvariant(vocab0, tokens, i + 1, next, counts[next[t] := counts[next[t]] + 1.0])
  {
    assert tokens[..i + 1][..i] == tokens[..i];
    CountsStep(vocab, tokens, i);
  }

  // ---------------------------------------------------------------------------
  // The service
  // ---------------------------------------------------------------------------

  class TfidfEmbeddingService {
    /** `_vocab`. */
    var vocab: map<string, int>
    /** The vocabulary's tokens in the order they were added. */
    ghost var order: seq<string>

    ghost predicate Valid()
      reads this
    {
      VocabInvariant(vocab, order)
    }

    constructor()
      ensures Valid() && vocab == map[] && order == []
    {
      vocab := map[];
      order := [];
    }

    /** `GenerateEmbeddingAsync`: updates the vocabulary with the text's tokens and returns
        their normalised count vector. */
    method GenerateEmbedding(text: string, sqrt: real -> real) returns (embedding: array<real>)
      requires Valid()
      modifies this
      ensures Valid()
      ensures vocab == AddTokens(old(vocab), Tokenize(text))
      ensures order == AppendNew(old(order), Tokenize(text))
      ensures fresh(embedding) && embedding.Length == VectorSize
      ensures embedding[..] == Normalized(Counts(vocab, Tokenize(text)), sqrt)
    {
      var tokens := Tokenize(text);
      var vector := CountTokens(tokens);
      embedding := Normalize(vector, sqrt);
    }

    /** The `foreach` loop of `GenerateEmbeddingAsync`: a token seen for the first time gets
        the slot `vocab.Count % 1024`, and each token adds one to its slot. */
    method CountTokens(tokens: seq<string>) returns (vector: array<real>)
      requires Valid()
      modifies this
      ensures Valid()
      ensures vocab == AddTokens(old(vocab), tokens)
      ensures order == AppendNew(old(order), tokens)
      ensures fresh(vector) && vector[..] == Counts(vocab, tokens)
    {
      vector := new real[VectorSize](_ => 0.0);
      var v := vocab;
      SlotsInRange(vocab, order);
      assert vector[..] == Counts(v, tokens[..0]);
      for i := 0 to |tokens|
        invariant vector.Length == VectorSize
        invariant CountingInvariant(old(vocab), tokens, i, v, vector[..])
      {
        var token := tokens[i];
        CountingStep(old(vocab), tokens, i, v, vector[..]);
        if token !in v {
          v := v[token := |v| % VectorSize];
        }
        var slot := v[token];
        ghost var counts := vector[..];
        vector[slot] := vector[slot] + 1.0;
        assert vector[..] == counts[slot := counts[slot] + 1.0];
      }
      assert tokens[..|tokens|] == tokens;
      AddTokensInvariant(old(vocab), old(order), tokens);
      vocab, order := v, AppendNew(old(order), tokens);
    }

    /** `Normalize`: the array itself when its norm is 0, a new scaled array otherwise. */
    static method Normalize(vector: array<real>, sqrt: real -> real) returns (r: array<real>)
      ensures r[..] == Normalized(vector[..], sqrt)
      ensures sqrt(SumOfSquares(vector[..])) == 0.0 ==> r == vector
      ensures sqrt(SumOfSquares(vector[..])) != 0.0 ==> fresh(r)
    {
      var len := sqrt(SumOfSquares(vector[..]));
      if len == 0.0 {
        return vector;
      }
      r := new real[vector.Length](i requires 0 <= i < vector.Length reads vector => vector[i] / len);
    }
  }
}
