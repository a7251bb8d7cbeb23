/**
 * The input preparation of the ONNX sentence embedder (`OnnxEmbeddingService`): the text is
 * lower-cased, every run of non-word characters becomes one space, the result is encoded as
 * UTF-8 and each byte is one token. The tokens are then padded with zeros or truncated to the
 * model's fixed input length of 512, together with an attention mask (1 on real tokens, 0 on
 * padding) and all-zero token type ids.
 */
module Onnx {
  import opened Wrappers
  import opened Text

  const MaxSequenceLength: nat := 512

  // ---------------------------------------------------------------------------
  // Tokenizer
  // ---------------------------------------------------------------------------

  /** `Regex.Replace(text.ToLower(), @"\W+", " ")`. */
  function NormalizeText(text: string): string {
    CollapseRuns(Lower(text), IsNonWordChar)
  }

  /** The standard UTF-8 encoding of one Unicode scalar value (section 3 of RFC 3629). */
  function EncodeChar(c: char): (bytes: seq<int>)
    ensures 1 <= |bytes| <= 4
    ensures forall k :: 0 <= k < |bytes| ==> 0 <= bytes[k] <= 255
    ensures (c as int) < 0x80 <==> |bytes| == 1
  {
    var cp := c as int;
    if cp < 0x80 then [cp]
    else if cp < 0x800 then [0xC0 + cp / 64, 0x80 + cp % 64]
    else if cp < 0x10000 then [0xE0 + cp / 4096, 0x80 + (cp / 64) % 64, 0x80 + cp % 64]
    else [0xF0 + cp / 262144, 0x80 + (cp / 4096) % 64, 0x80 + (cp / 64) % 64, 0x80 + cp % 64]
  }

  /** `Encoding.UTF8.GetBytes`, with each byte widened to an `int`. */
  function Utf8(s: string): seq<int>
    decreases |s|
  {
    if |s| == 0 then [] else EncodeChar(s[0]) + Utf8(s[1..])
  }

  /** `TokenizeText`. */
  function TokenizeText(text: string): seq<int> {
    Utf8(NormalizeText(text))
  }

  /** Every token is a byte value. */
  lemma {:induction false} Utf8IsBytes(s: string)
    ensures forall k :: 0 <= k < |Utf8(s)| ==> 0 <= Utf8(s)[k] <= 255
    ensures |Utf8(s)| >= |s|
    decreases |s|
  {
    if |s| > 0 {
      Utf8IsBytes(s[1..]);
      var head := EncodeChar(s[0]);
      var tail := Utf8(s[1..]);
      forall k | 0 <= k < |Utf8(s)| ensures 0 <= Utf8(s)[k] <= 255 {
        if k < |head| { assert Utf8(s)[k] == head[k]; } else { assert Utf8(s)[k] == tail[k - |head|]; }
      }
    }
  }

  lemma TokensAreBytes(text: string)
    ensures forall k :: 0 <= k < |TokenizeText(text)| ==> 0 <= TokenizeText(text)[k] <= 255
  {
    Utf8IsBytes(NormalizeText(text));
  }

  /** The code points of a string. */
  function CodePoints(s: string): (r: seq<int>)
    ensures |r| == |s|
    ensures forall k :: 0 <= k < |s| ==> r[k] == s[k] as int
  {
    seq(|s|, k requires 0 <= k < |s| => s[k] as int)
  }

  /** A text of ASCII characters is encoded one byte per character, each byte its code. */
  lemma {:induction false} Utf8OfAscii(s: string)
    requires forall k :: 0 <= k < |s| ==> (s[k] as int) < 0x80
    ensures Utf8(s) == CodePoints(s)
    decreases |s|
  {
    if |s| > 0 {
      Utf8OfAscii(s[1..]);
      assert CodePoints(s) == [s[0] as int] + CodePoints(s[1..]);
    }
  }

  /** The number of bytes of the UTF-8 sequence a lead byte starts, or 0 for a byte that cannot
      start one. */
  function SequenceLength(lead: int): nat {
    if 0 <= lead < 0x80 then 1
    else if 0xC0 <= lead < 0xE0 then 2
    else if 0xE0 <= lead < 0xF0 then 3
    else if 0xF0 <= lead < 0xF8 then 4
    else 0
  }

  /** The code point of one complete UTF-8 sequence. */
  function DecodeSequence(b: seq<int>): int
    requires 1 <= |b| <= 4
  {
    if |b| == 1 then b[0]
    else if |b| == 2 then (b[0] - 0xC0) * 64 + (b[1] - 0x80)
    else if |b| == 3 then (b[0] - 0xE0) * 4096 + (b[1] - 0x80) * 64 + (b[2] - 0x80)
    else (b[0] - 0xF0) * 262144 + (b[1] - 0x80) * 4096 + (b[2] - 0x80) * 64 + (b[3] - 0x80)
  }

  /** A UTF-8 decoder, independent of the encoder: the code points, or `None` for a byte
      sequence that is cut short or starts with a continuation byte. */
  function Decode(bytes: seq<int>): Option<seq<int>>
    decreases |bytes|
  {
    if |bytes| == 0 then Some([])
    else
      var n := SequenceLength(bytes[0]);
      if n == 0 || n > |bytes| then None
      else
        match Decode(bytes[n..])
        case None => None
        case Some(rest) => Some([DecodeSequence(bytes[..n])] + rest)
  }

  lemma DecodeEncodeChar(c: char)
    ensures SequenceLength(EncodeChar(c)[0]) == |EncodeChar(c)|
    ensures DecodeSequence(EncodeChar(c)) == c as int
  {
    var cp := c as int;
    if 0x80 <= cp < 0x800 {
      DecodeTwoBytes(cp);
    } else if 0x800 <= cp < 0x10000 {
      DecodeThreeBytes(cp);
    } else if 0x10000 <= cp {
      DecodeFourBytes(cp);
    }
  }

  lemma DecodeTwoBytes(cp: int)
    requires 0x80 <= cp < 0x800
    ensures SequenceLength(0xC0 + cp / 64) == 2
    ensures DecodeSequence([0xC0 + cp / 64, 0x80 + cp % 64]) == cp
  {
    assert cp == (cp / 64) * 64 + cp % 64;
  }

  lemma DecodeThreeBytes(cp: int)
    requires 0x800 <= cp < 0x10000
    ensures SequenceLength(0xE0 + cp / 4096) == 3
    ensures DecodeSequence([0xE0 + cp / 4096, 0x80 + (cp / 64) % 64, 0x80 + cp % 64]) == cp
  {
    assert cp / 64 == (cp / 4096) * 64 + (cp / 64) % 64;
    assert cp == (cp / 64) * 64 + cp % 64;
  }

  lemma DecodeFourBytes(cp: int)
    requires 0x10000 <= cp < 0x110000
    ensures SequenceLength(0xF0 + cp / 262144) == 4
    ensures DecodeSequence([0xF0 + cp / 262144, 0x80 + (cp / 4096) % 64, 0x80 + (cp / 64) % 64, 0x80 + cp % 64]) == cp
  {
    assert cp / 4096 == (cp / 262144) * 64 + (cp / 4096) % 64;
    assert cp / 64 == (cp / 4096) * 64 + (cp / 64) % 64;
    assert cp == (cp / 64) * 64 + cp % 64;
  }

  /** Decoding undoes the encoding: the tokens determine the normalised text. */
  lemma {:induction false} DecodeUtf8(s: string)
    ensures Decode(Utf8(s)) == Some(CodePoints(s))
    decreases |s|
  {
    if |s| > 0 {
      var head := EncodeChar(s[0]);
      var bytes := Utf8(s);
      DecodeEncodeChar(s[0]);
      DecodeUtf8(s[1..]);
      assert bytes[..|head|] == head;
      assert bytes[|head|..] == Utf8(s[1..]);
      assert CodePoints(s) == [s[0] as int] + CodePoints(s[1..]);
    }
  }

  // ---------------------------------------------------------------------------
  // Padding and truncation
  // ---------------------------------------------------------------------------

  function Min(a: int, b: int): int {
    if a <= b then a else b
  }

  /** The number of ones in `s`. */
  function CountOnes(s: seq<int>): nat
    decreases |s|
  {
    if |s| == 0 then 0 else CountOnes(s[..|s| - 1]) + (if s[|s| - 1] == 1 then 1 else 0)
  }

  /** A mask that is 1 on a prefix of length `n` and 0 after it holds exactly `n` ones. */
  lemma {:induction false} MaskOnes(mask: seq<int>, n: nat)
    requires n <= |mask|
    requires forall i :: 0 <= i < n ==> mask[i] == 1
    requires forall i :: n <= i < |mask| ==> mask[i] == 0
    ensures CountOnes(mask) == n
    decreases |mask|
  {
    if |mask| > 0 {
      var init := mask[..|mask| - 1];
      if n == |mask| {
        MaskOnes(init, n - 1);
      } else {
        MaskOnes(init, n);
      }
    }
  }

  /** The padding step of `GenerateEmbeddingAsync`: three zero-initialised arrays of
      `MaxSequenceLength` entries, of which the first `min(|tokens|, 512)` receive the token,
      the attention flag 1 and the token type 0. */
  method PadTokens(tokens: seq<int>) returns (paddedTokens: array<int>, attentionMask: array<int>,
                                              tokenTypeIds: array<int>)
    ensures fresh(paddedTokens) && fresh(attentionMask) && fresh(tokenTypeIds)
    ensures paddedTokens.Length == MaxSequenceLength && attentionMask.Length == MaxSequenceLength
    ensures tokenTypeIds.Length == MaxSequenceLength
    ensures var length := Min(|tokens|, MaxSequenceLength);
      && (forall i :: 0 <= i < length ==> paddedTokens[i] == tokens[i] && attentionMask[i] == 1)
      && (forall i :: length <= i < MaxSequenceLength ==> paddedTokens[i] == 0 && attentionMask[i] == 0)
    ensures forall i :: 0 <= i < MaxSequenceLength ==> tokenTypeIds[i] == 0
  {
    paddedTokens := new int[MaxSequenceLength](_ => 0);
    attentionMask := new int[MaxSequenceLength](_ => 0);
    tokenTypeIds := new int[MaxSequenceLength](_ => 0);
    var length := Min(|tokens|, MaxSequenceLength);
    for i := 0 to length
      invariant forall k :: 0 <= k < i ==> paddedTokens[k] == tokens[k] && attentionMask[k] == 1
      invariant forall k :: i <= k < MaxSequenceLength ==> paddedTokens[k] == 0 && attentionMask[k] == 0
      invariant forall k :: 0 <= k < MaxSequenceLength ==> tokenTypeIds[k] == 0
    {
      paddedTokens[i] := tokens[i];
      attentionMask[i] := 1;
      tokenTypeIds[i] := 0;
    }
  }

  /** The input preparation of `GenerateEmbeddingAsync`: the model inputs for a text (the inference
      itself is not part of this model). */
  method PrepareInputs(text: string) returns (inputIds: array<int>, attentionMask: array<int>,
                                              tokenTypeIds: array<int>)
    ensures fresh(inputIds) && fresh(attentionMask) && fresh(tokenTypeIds)
    ensures inputIds.Length == MaxSequenceLength && attentionMask.Length == MaxSequenceLength
    ensures tokenTypeIds.Length == MaxSequenceLength
    ensures var tokens := TokenizeText(text); var length := Min(|tokens|, MaxSequenceLength);
      && (forall i :: 0 <= i < length ==> inputIds[i] == tokens[i] && attentionMask[i] == 1)
      && (forall i :: length <= i < MaxSequenceLength ==> inputIds[i] == 0 && attentionMask[i] == 0)
      && CountOnes(attentionMask[..]) == length
    ensures forall i :: 0 <= i < MaxSequenceLength ==> 0 <= inputIds[i] <= 255 && tokenTypeIds[i] == 0
  {
    var tokens := TokenizeText(text);
    TokensAreBytes(text);
    inputIds, attentionMask, tokenTypeIds := PadTokens(tokens);
    MaskOnes(attentionMask[..], Min(|tokens|, MaxSequenceLength));
  }
}
