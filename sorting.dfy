/**
 * The sorted working copy of a grading list: the positions of its entries
 * ordered by ascending factor. Entries are named by their position in the
 * caller's list, which is how the result is later put back in display order.
 */
module Sorting {
  import opened Gradings

  /** Every position is in range and the factors do not decrease along `order`. */
  predicate SortedByFactor(g: seq<Grading>, order: seq<nat>)
  {
    && (forall k :: 0 <= k < |order| ==> order[k] < |g|)
    && forall a, b :: 0 <= a < b < |order| ==> g[order[a]].milliseconds <= g[order[b]].milliseconds
  }

  predicate Distinct(s: seq<nat>)
  {
    forall a, b :: 0 <= a < b < |s| ==> s[a] != s[b]
  }

  /**
   * Inserts position `i` after every entry whose factor is not larger, so
   * entries with equal factors keep their relative order.
   */
  function Insert(g: seq<Grading>, sorted: seq<nat>, i: nat): (r: seq<nat>)
    requires i < |g| && SortedByFactor(g, sorted)
    ensures |r| == |sorted| + 1
    ensures forall x :: x in r <==> x in sorted || x == i
    ensures SortedByFactor(g, r)
    ensures Distinct(sorted) && i !in sorted ==> Distinct(r)
  {
    SortedHead(g, sorted);
    if sorted == [] || g[i].milliseconds < g[sorted[0]].milliseconds then
      ConsSorted(g, i, sorted);
      ConsDistinct(i, sorted);
      [i] + sorted
    else
      var rest := Insert(g, sorted[1..], i);
      DistinctTail(sorted);
      ConsSorted(g, sorted[0], rest);
      ConsDistinct(sorted[0], rest);
      [sorted[0]] + rest
  }

  /** In a sorted list no entry has a smaller factor than the first. */
  lemma SortedHead(g: seq<Grading>, sorted: seq<nat>)
    requires SortedByFactor(g, sorted)
    ensures sorted != [] ==> forall y :: y in sorted ==> g[sorted[0]].milliseconds <= g[y].milliseconds
  {
    if sorted != [] {
      forall y | y in sorted ensures g[sorted[0]].milliseconds <= g[y].milliseconds {
        var k :| 0 <= k < |sorted| && sorted[k] == y;
        if k > 0 {
          assert g[sorted[0]].milliseconds <= g[sorted[k]].milliseconds;
        }
      }
    }
  }

  lemma ConsSorted(g: seq<Grading>, x: nat, s: seq<nat>)
    requires x < |g| && SortedByFactor(g, s)
    requires forall y :: y in s ==> g[x].milliseconds <= g[y].milliseconds
    ensures SortedByFactor(g, [x] + s)
  {
    var r := [x] + s;
    forall a, b | 0 <= a < b < |r| ensures g[r[a]].milliseconds <= g[r[b]].milliseconds {
      assert r[b] == s[b - 1];
      if a > 0 { assert r[a] == s[a - 1]; }
    }
  }

  /** Past the first entry of a distinct list, the rest is distinct and lacks it. */
  lemma DistinctTail(s: seq<nat>)
    requires s != []
    ensures Distinct(s) ==> Distinct(s[1..]) && s[0] !in s[1..]
  {
    if Distinct(s) {
      forall a, b | 0 <= a < b < |s| - 1 ensures s[1..][a] != s[1..][b] {
        assert s[1..][a] == s[a + 1] && s[1..][b] == s[b + 1];
      }
      forall k | 0 <= k < |s| - 1 ensures s[1..][k] != s[0] {
        assert s[1..][k] == s[k + 1];
      }
    }
  }

  lemma ConsDistinct(x: nat, s: seq<nat>)
    ensures Distinct(s) && x !in s ==> Distinct([x] + s)
  {
    var r := [x] + s;
    if Distinct(s) && x !in s {
      forall a, b | 0 <= a < b < |r| ensures r[a] != r[b] {
        assert r[b] == s[b - 1];
      }
    }
  }

  /** Insertion sort of the first `n` positions of `g`. */
  function SortedPrefix(g: seq<Grading>, n: nat): (order: seq<nat>)
    requires n <= |g|
    ensures |order| == n && Distinct(order) && SortedByFactor(g, order)
    ensures forall x: nat :: x in order <==> x < n
  {
    if n == 0 then [] else Insert(g, SortedPrefix(g, n - 1), n - 1)
  }

  /**
   * The sorted copy of the whole list: a permutation of its positions,
   * ordered by factor. The caller's list itself is a value and stays as it is.
   */
  function SortedCopy(g: seq<Grading>): (order: seq<nat>)
    ensures |order| == |g| && Distinct(order) && SortedByFactor(g, order)
    ensures forall x: nat :: x in order <==> x < |g|
  {
    SortedPrefix(g, |g|)
  }
}
