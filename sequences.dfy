/**
 * Sequence utilities shared by the models: lists without repetitions and the
 * "append what is new" fold that ordered dictionaries and sets follow.
 */
module Sequences {

  /** No element occurs twice. */
  predicate NoDuplicates<T(==)>(s: seq<T>) {
    forall i, j :: 0 <= i < j < |s| ==> s[i] != s[j]
  }

  /** `d` followed by each element of `xs` that is not yet present, in order. */
  function AppendNew<T(==)>(d: seq<T>, xs: seq<T>): seq<T>
    decreases |xs|
  {
    if |xs| == 0 then d
    else
      var r := AppendNew(d, xs[..|xs| - 1]);
      if xs[|xs| - 1] in r then r else r + [xs[|xs| - 1]]
  }

  /** Each element once, in the order of its first occurrence. */
  function FirstOccurrences<T(==)>(xs: seq<T>): seq<T> {
    AppendNew([], xs)
  }

  /** Appending what is new keeps a list free of repetitions, holds the elements of both
      lists, and extends the original list. */
  lemma {:induction false} AppendNewProperties<T>(d: seq<T>, xs: seq<T>)
    requires NoDuplicates(d)
    ensures NoDuplicates(AppendNew(d, xs))
    ensures forall x :: x in AppendNew(d, xs) <==> x in d || x in xs
    ensures d <= AppendNew(d, xs)
    decreases |xs|
  {
    if |xs| > 0 {
      var init := xs[..|xs| - 1];
      AppendNewProperties(d, init);
      assert forall x :: x in xs <==> x in init || x == xs[|xs| - 1] by {
        assert xs == init + [xs[|xs| - 1]];
      }
    }
  }

  lemma {:induction false} AppendNewConcat<T>(d: seq<T>, a: seq<T>, b: seq<T>)
    ensures AppendNew(d, a + b) == AppendNew(AppendNew(d, a), b)
    decreases |b|
  {
    if |b| == 0 {
      assert a + b == a;
    } else {
      PrefixOfConcat(a, b);
      AppendNewConcat(d, a, b[..|b| - 1]);
    }
  }

  lemma {:induction false} AppendNewMembers<T>(d: seq<T>, xs: seq<T>)
    ensures forall x :: x in AppendNew(d, xs) <==> x in d || x in xs
    decreases |xs|
  {
    if |xs| > 0 {
      var init := xs[..|xs| - 1];
      AppendNewMembers(d, init);
      assert xs == init + [xs[|xs| - 1]];
    }
  }

  lemma PrefixOfConcat<T>(a: seq<T>, b: seq<T>)
    requires |b| > 0
    ensures (a + b)[..|a + b| - 1] == a + b[..|b| - 1]
  {
  }

  lemma ConcatAssoc<T>(x: seq<T>, y: seq<T>, z: seq<T>)
    ensures (x + y) + z == x + (y + z)
  {
  }

  lemma SplitAround<T>(s: seq<T>, j: nat)
    requires j < |s|
    ensures s == (s[..j] + [s[j]]) + s[j + 1..]
  {
  }
}
