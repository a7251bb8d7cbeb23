/**
 * Stable sorting by a real-valued key, as LINQ's `OrderBy` and `OrderByDescending` do it.
 * The sort is computed on positions: `SortPositions(keys)` lists the positions 0..|keys|-1 in
 * ascending key order, equal keys keeping their original order, and `Apply` reads a list
 * through such a list of positions.
 */
module StableSort {

  /** Position `a` comes before position `b`: a smaller key, or an equal key and an earlier
      position. */
  predicate Before(keys: seq<real>, a: nat, b: nat)
    requires a < |keys| && b < |keys|
  {
    keys[a] < keys[b] || (keys[a] == keys[b] && a < b)
  }

  ghost predicate InRange(idx: seq<nat>, n: nat) {
    forall p :: 0 <= p < |idx| ==> idx[p] < n
  }

  /** `idx` lists every position 0..n-1 exactly once. */
  ghost predicate IsPermutation(idx: seq<nat>, n: nat) {
    && |idx| == n
    && InRange(idx, n)
    && (forall p, q :: 0 <= p < q < |idx| ==> idx[p] != idx[q])
    && (forall x :: 0 <= x < n ==> x in idx)
  }

  /** The positions in `idx` are in stable ascending order of their keys. */
  ghost predicate StablyOrdered(keys: seq<real>, idx: seq<nat>) {
    InRange(idx, |keys|) && forall p, q :: 0 <= p < q < |idx| ==> Before(keys, idx[p], idx[q])
  }

  /** Inserts position `j` after every listed position whose key is not greater than its own. */
  function Insert(keys: seq<real>, idx: seq<nat>, j: nat): (r: seq<nat>)
    requires j < |keys| && InRange(idx, |keys|)
    ensures |r| == |idx| + 1 && InRange(r, |keys|)
    ensures forall x :: x in r <==> x == j || x in idx
  {
    if |idx| == 0 then [j]
    else if keys[j] < keys[idx[0]] then [j] + idx
    else
      var rest := Insert(keys, idx[1..], j);
      assert idx == [idx[0]] + idx[1..];
      [idx[0]] + rest
  }

  /** Insertion sort of the positions 0..n-1. */
  function SortIndices(keys: seq<real>, n: nat): (r: seq<nat>)
    requires n <= |keys|
    ensures |r| == n && InRange(r, n)
    ensures forall x: nat :: x in r <==> x < n
  {
    if n == 0 then []
    else
      var prev := SortIndices(keys, n - 1);
      var r := Insert(keys, prev, n - 1);
      assert forall x: nat :: x in r <==> x < n by {
        forall x: nat ensures x in r <==> x < n {
          assert x in r <==> x == n - 1 || x in prev;
        }
      }
      assert forall p :: 0 <= p < |r| ==> r[p] in r;
      r
  }

  /** The positions of `keys` in stable ascending key order. */
  function SortPositions(keys: seq<real>): seq<nat> {
    SortIndices(keys, |keys|)
  }

  /** The list `s` read through the positions `idx`. */
  function Apply<T>(s: seq<T>, idx: seq<nat>): (r: seq<T>)
    requires InRange(idx, |s|)
    ensures |r| == |idx|
    ensures forall p :: 0 <= p < |idx| ==> r[p] == s[idx[p]]
  {
    seq(|idx|, p requires 0 <= p < |idx| => s[idx[p]])
  }

  lemma {:induction false} InsertOrdered(keys: seq<real>, idx: seq<nat>, j: nat)
    requires j < |keys| && StablyOrdered(keys, idx)
    requires forall p :: 0 <= p < |idx| ==> idx[p] < j
    ensures StablyOrdered(keys, Insert(keys, idx, j))
  {
    if |idx| > 0 {
      var r := Insert(keys, idx, j);
      if keys[j] < keys[idx[0]] {
        forall q | 0 < q < |r| ensures Before(keys, r[0], r[q]) {
          assert r[q] == idx[q - 1];
          if q > 1 { assert Before(keys, idx[0], idx[q - 1]); }
        }
        forall p, q | 0 < p < q < |r| ensures Before(keys, r[p], r[q]) {
          assert r[p] == idx[p - 1] && r[q] == idx[q - 1];
        }
      } else {
        var tail := idx[1..];
        InsertOrdered(keys, tail, j);
        var rest := Insert(keys, tail, j);
        assert r == [idx[0]] + rest;
        forall q | 0 < q < |r| ensures Before(keys, r[0], r[q]) {
          assert r[q] in rest;
          if r[q] != j {
            assert r[q] in tail;
            var k :| 0 <= k < |tail| && tail[k] == r[q];
            assert Before(keys, idx[0], idx[k + 1]);
          }
        }
        forall p, q | 0 < p < q < |r| ensures Before(keys, r[p], r[q]) {
          assert r[p] == rest[p - 1] && r[q] == rest[q - 1];
        }
      }
    }
  }

  lemma {:induction false} SortIndicesOrdered(keys: seq<real>, n: nat)
    requires n <= |keys|
    ensures StablyOrdered(keys, SortIndices(keys, n))
  {
    if n > 0 {
      SortIndicesOrdered(keys, n - 1);
      InsertOrdered(keys, SortIndices(keys, n - 1), n - 1);
    }
  }

  /** Stably ordered positions are pairwise distinct. */
  lemma OrderedDistinct(keys: seq<real>, idx: seq<nat>)
    requires StablyOrdered(keys, idx)
    ensures forall p, q :: 0 <= p < q < |idx| ==> idx[p] != idx[q]
  {
    forall p, q | 0 <= p < q < |idx| ensures idx[p] != idx[q] {
      assert Before(keys, idx[p], idx[q]);
    }
  }

  /** `SortPositions` is a stable ascending sort: it lists every position once, ordered by
      key, and positions with equal keys keep their original order. */
  lemma SortPositionsCorrect(keys: seq<real>)
    ensures IsPermutation(SortPositions(keys), |keys|)
    ensures StablyOrdered(keys, SortPositions(keys))
  {
    SortIndicesOrdered(keys, |keys|);
    OrderedDistinct(keys, SortPositions(keys));
  }

  /** The first of stably ordered positions comes before every other one. */
  lemma HeadFirst(keys: seq<real>, a: seq<nat>, x: nat)
    requires StablyOrdered(keys, a) && x in a
    ensures x == a[0] || Before(keys, a[0], x)
  {
    var p :| 0 <= p < |a| && a[p] == x;
    if p > 0 { assert Before(keys, a[0], a[p]); }
  }

  lemma NonEmptyHasMember(s: seq<nat>)
    ensures |s| > 0 <==> exists x :: x in s
  {
    if |s| > 0 { assert s[0] in s; }
  }

  lemma BeforeAsymmetric(keys: seq<real>, x: nat, y: nat)
    requires x < |keys| && y < |keys|
    ensures !(Before(keys, x, y) && Before(keys, y, x))
  {
  }

  /** There is only one stably ordered listing of a set of positions, so the stable sort is
      determined by the keys alone. */
  lemma {:induction false} StablyOrderedUnique(keys: seq<real>, a: seq<nat>, b: seq<nat>)
    requires StablyOrdered(keys, a) && StablyOrdered(keys, b)
    requires forall x :: x in a <==> x in b
    ensures a == b
    decreases |a|
  {
    NonEmptyHasMember(a);
    NonEmptyHasMember(b);
    if |a| > 0 && |b| > 0 {
      assert b[0] in a && a[0] in b;
      HeadFirst(keys, a, b[0]);
      HeadFirst(keys, b, a[0]);
      BeforeAsymmetric(keys, a[0], b[0]);
      assert a[0] == b[0];
      OrderedDistinct(keys, a);
      OrderedDistinct(keys, b);
      forall x ensures x in a[1..] <==> x in b[1..] {
        if x in a[1..] {
          var p :| 1 <= p < |a| && a[p] == x;
          assert x in b && x != b[0];
          var q :| 0 <= q < |b| && b[q] == x;
          assert b[1..][q - 1] == x;
        }
        if x in b[1..] {
          var q :| 1 <= q < |b| && b[q] == x;
          assert x in a && x != a[0];
          var p :| 0 <= p < |a| && a[p] == x;
          assert a[1..][p - 1] == x;
        }
      }
      StablyOrderedUnique(keys, a[1..], b[1..]);
      assert a == [a[0]] + a[1..] && b == [b[0]] + b[1..];
    }
  }

  lemma ApplyCons<T>(s: seq<T>, x: nat, rest: seq<nat>)
    requires x < |s| && InRange(rest, |s|)
    ensures InRange([x] + rest, |s|)
    ensures Apply(s, [x] + rest) == [s[x]] + Apply(s, rest)
  {
  }

  lemma {:induction false} ApplyInsert<T>(s: seq<T>, keys: seq<real>, idx: seq<nat>, j: nat)
    requires |s| == |keys| && j < |keys| && InRange(idx, |keys|)
    ensures multiset(Apply(s, Insert(keys, idx, j))) == multiset(Apply(s, idx)) + multiset{s[j]}
  {
    if |idx| == 0 {
      assert Apply(s, [j]) == [s[j]];
    } else if keys[j] < keys[idx[0]] {
      ApplyCons(s, j, idx);
    } else {
      var rest := Insert(keys, idx[1..], j);
      ApplyInsert(s, keys, idx[1..], j);
      ApplyCons(s, idx[0], rest);
      ApplyCons(s, idx[0], idx[1..]);
      assert idx == [idx[0]] + idx[1..];
      assert Insert(keys, idx, j) == [idx[0]] + rest;
      calc {
        multiset(Apply(s, [idx[0]] + rest));
        multiset([s[idx[0]]] + Apply(s, rest));
        multiset{s[idx[0]]} + multiset(Apply(s, rest));
        multiset{s[idx[0]]} + multiset(Apply(s, idx[1..])) + multiset{s[j]};
        multiset([s[idx[0]]] + Apply(s, idx[1..])) + multiset{s[j]};
      }
    }
  }

  lemma {:induction false} ApplySortIndicesMultiset<T>(s: seq<T>, keys: seq<real>, n: nat)
    requires |s| == |keys| && n <= |keys|
    ensures multiset(Apply(s, SortIndices(keys, n))) == multiset(s[..n])
  {
    if n == 0 {
      assert Apply(s, []) == [];
    } else {
      ApplySortIndicesMultiset(s, keys, n - 1);
      ApplyInsert(s, keys, SortIndices(keys, n - 1), n - 1);
      assert s[..n] == s[..n - 1] + [s[n - 1]];
    }
  }

  /** Reading a list through its sorted positions rearranges it: the same elements with the
      same multiplicities. */
  lemma ApplySortPositionsPermutes<T>(s: seq<T>, keys: seq<real>)
    requires |s| == |keys|
    ensures multiset(Apply(s, SortPositions(keys))) == multiset(s)
  {
    ApplySortIndicesMultiset(s, keys, |keys|);
    assert s[..|keys|] == s;
  }
}
