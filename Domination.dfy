/**
 * Domination and the enumeration of dominating sets (Graph::isDominatingSet,
 * Graph::exploreCombinations, Graph::generateDominatingSets) as functions on
 * the adjacency lists, with the properties of the enumeration: every emitted
 * set is a strictly increasing dominating set of size k, every such set is
 * emitted, and the output is in strictly increasing lexicographic order.
 */
module Domination {
  import opened AdjacencyLists

  /** `w` is a member of `s` or a neighbour of one: the cells isDominatingSet marks. */
  predicate DominatedBy(adj: seq<seq<int>>, s: seq<int>, w: int) {
    exists i :: 0 <= i < |s| && (w == s[i] || Adjacent(adj, s[i], w))
  }

  /** Every vertex of the graph is dominated by `s`. */
  predicate Dominates(adj: seq<seq<int>>, s: seq<int>) {
    forall w :: 0 <= w < |adj| ==> DominatedBy(adj, s, w)
  }

  predicate InRange(s: seq<int>, n: int) {
    forall i :: 0 <= i < |s| ==> 0 <= s[i] < n
  }

  predicate StrictlyIncreasing(s: seq<int>) {
    forall i, j :: 0 <= i < j < |s| ==> s[i] < s[j]
  }

  /** What generateDominatingSets is meant to list: the canonical (sorted) dominating sets of size k. */
  predicate Candidate(adj: seq<seq<int>>, k: int, s: seq<int>) {
    |s| == k && StrictlyIncreasing(s) && InRange(s, |adj|) && Dominates(adj, s)
  }

  /**
   * The sets that exploreCombinations(start, k, cur) appends, in order: `cur`
   * itself when it has reached size k and dominates, otherwise every
   * extension by a vertex `v >= start`, explored with `v + 1`.
   */
  function Explore(adj: seq<seq<int>>, start: int, k: int, cur: seq<int>): seq<seq<int>>
    requires 0 <= start && InRange(cur, |adj|)
    decreases |adj| - start, 1
  {
    if |cur| == k then (if Dominates(adj, cur) then [cur] else [])
    else ExploreFrom(adj, start, k, cur)
  }

  /** The `for (v = start; v < n; v++)` loop of exploreCombinations, from `v` on. */
  function ExploreFrom(adj: seq<seq<int>>, v: int, k: int, cur: seq<int>): seq<seq<int>>
    requires 0 <= v && InRange(cur, |adj|)
    decreases |adj| - v, 0
  {
    if v >= |adj| then []
    else Explore(adj, v + 1, k, cur + [v]) + ExploreFrom(adj, v + 1, k, cur)
  }

  /** generateDominatingSets(k): exploreCombinations from vertex 0 with an empty current set. */
  function DominatingSets(adj: seq<seq<int>>, k: int): seq<seq<int>> {
    Explore(adj, 0, k, [])
  }

  /** Strict lexicographic order on vertex sequences. */
  predicate LexLess(a: seq<int>, b: seq<int>)
    decreases |a|
  {
    |b| > 0 && (|a| == 0 || a[0] < b[0] || (a[0] == b[0] && LexLess(a[1..], b[1..])))
  }

  predicate LexSorted(ss: seq<seq<int>>) {
    forall i, j :: 0 <= i < j < |ss| ==> LexLess(ss[i], ss[j])
  }

  lemma DominatedByExtend(adj: seq<seq<int>>, s: seq<int>, i: int, w: int)
    requires 0 <= i < |s|
    ensures DominatedBy(adj, s[..i + 1], w) <==>
              DominatedBy(adj, s[..i], w) || w == s[i] || Adjacent(adj, s[i], w)
  {
    if DominatedBy(adj, s[..i + 1], w) && !(w == s[i] || Adjacent(adj, s[i], w)) {
      var j :| 0 <= j < i + 1 && (w == s[..i + 1][j] || Adjacent(adj, s[..i + 1][j], w));
      assert j < i && s[..i][j] == s[j];
    }
    if DominatedBy(adj, s[..i], w) {
      var j :| 0 <= j < i && (w == s[..i][j] || Adjacent(adj, s[..i][j], w));
      assert s[..i + 1][j] == s[j];
    }
    if w == s[i] || Adjacent(adj, s[i], w) {
      assert s[..i + 1][i] == s[i];
    }
  }

  lemma {:induction false} LexLessAt(a: seq<int>, b: seq<int>, i: int)
    requires 0 <= i < |a| && i < |b| && a[..i] == b[..i] && a[i] < b[i]
    ensures LexLess(a, b)
  {
    if i > 0 {
      assert a[0] == a[..i][0] == b[..i][0] == b[0];
      assert a[1..][..i - 1] == a[1..i] == a[..i][1..];
      assert b[1..][..i - 1] == b[1..i] == b[..i][1..];
      LexLessAt(a[1..], b[1..], i - 1);
    }
  }

  lemma {:induction false} LexLessIrreflexive(a: seq<int>)
    ensures !LexLess(a, a)
  {
    if |a| > 0 {
      LexLessIrreflexive(a[1..]);
    }
  }

  /**
   * Soundness of the enumeration: from a strictly increasing prefix whose
   * entries lie below `start`, every emitted set is a candidate that extends
   * the prefix with vertices from `start` on.
   */
  lemma {:induction false} ExploreSound(adj: seq<seq<int>>, start: int, k: int, cur: seq<int>)
    requires 0 <= start && InRange(cur, |adj|) && StrictlyIncreasing(cur)
    requires forall i :: 0 <= i < |cur| ==> cur[i] < start
    ensures forall s :: s in Explore(adj, start, k, cur) ==>
              Candidate(adj, k, s) && cur <= s && (|s| > |cur| ==> s[|cur|] >= start)
    decreases |adj| - start, 1
  {
    if |cur| != k {
      ExploreFromSound(adj, start, k, cur);
    }
  }

  lemma {:induction false} ExploreFromSound(adj: seq<seq<int>>, v: int, k: int, cur: seq<int>)
    requires 0 <= v && InRange(cur, |adj|) && StrictlyIncreasing(cur)
    requires forall i :: 0 <= i < |cur| ==> cur[i] < v
    ensures forall s :: s in ExploreFrom(adj, v, k, cur) ==>
              Candidate(adj, k, s) && cur <= s && |s| > |cur| && s[|cur|] >= v
    decreases |adj| - v, 0
  {
    if v < |adj| {
      var ext := cur + [v];
      ExploreSound(adj, v + 1, k, ext);
      ExploreFromSound(adj, v + 1, k, cur);
      forall s | s in Explore(adj, v + 1, k, ext)
        ensures cur <= s && |s| > |cur| && s[|cur|] == v
      {
        assert ext <= s;
        assert s[..|ext|][|cur|] == v;
        assert s[..|cur|] == s[..|ext|][..|cur|];
      }
    }
  }

  /** The enumeration lists its sets in strictly increasing lexicographic order. */
  lemma {:induction false} ExploreSorted(adj: seq<seq<int>>, start: int, k: int, cur: seq<int>)
    requires 0 <= start && InRange(cur, |adj|) && StrictlyIncreasing(cur)
    requires forall i :: 0 <= i < |cur| ==> cur[i] < start
    ensures LexSorted(Explore(adj, start, k, cur))
    decreases |adj| - start, 1
  {
    if |cur| != k {
      ExploreFromSorted(adj, start, k, cur);
    }
  }

  lemma {:induction false} ExploreFromSorted(adj: seq<seq<int>>, v: int, k: int, cur: seq<int>)
    requires 0 <= v && InRange(cur, |adj|) && StrictlyIncreasing(cur)
    requires forall i :: 0 <= i < |cur| ==> cur[i] < v
    ensures LexSorted(ExploreFrom(adj, v, k, cur))
    decreases |adj| - v, 0
  {
    if v < |adj| {
      var ext := cur + [v];
      var left := Explore(adj, v + 1, k, ext);
      var right := ExploreFrom(adj, v + 1, k, cur);
      ExploreSorted(adj, v + 1, k, ext);
      ExploreFromSorted(adj, v + 1, k, cur);
      ExploreBeforeFrom(adj, v, k, cur);
      LexSortedConcat(left, right);
    }
  }

  /** The sets that take `v` next come before the sets that skip it. */
  lemma ExploreBeforeFrom(adj: seq<seq<int>>, v: int, k: int, cur: seq<int>)
    requires 0 <= v < |adj| && InRange(cur, |adj|) && StrictlyIncreasing(cur)
    requires forall i :: 0 <= i < |cur| ==> cur[i] < v
    ensures forall a, b :: a in Explore(adj, v + 1, k, cur + [v]) && b in ExploreFrom(adj, v + 1, k, cur) ==>
              LexLess(a, b)
  {
    var ext := cur + [v];
    ExploreSound(adj, v + 1, k, ext);
    ExploreFromSound(adj, v + 1, k, cur);
    forall a, b | a in Explore(adj, v + 1, k, ext) && b in ExploreFrom(adj, v + 1, k, cur)
      ensures LexLess(a, b)
    {
      assert ext <= a;
      assert a[..|ext|][|cur|] == v;
      assert a[..|cur|] == a[..|ext|][..|cur|] == cur;
      LexLessAt(a, b, |cur|);
    }
  }

  /** Two sorted lists, every entry of the first below every entry of the second, concatenate sorted. */
  lemma LexSortedConcat(left: seq<seq<int>>, right: seq<seq<int>>)
    requires LexSorted(left) && LexSorted(right)
    requires forall a, b :: a in left && b in right ==> LexLess(a, b)
    ensures LexSorted(left + right)
  {
    var all := left + right;
    forall i, j | 0 <= i < j < |all|
      ensures LexLess(all[i], all[j])
    {
      if j < |left| {
        assert all[i] == left[i] && all[j] == left[j];
      } else if i >= |left| {
        assert all[i] == right[i - |left|] && all[j] == right[j - |left|];
      } else {
        assert all[i] in left && all[j] in right;
      }
    }
  }

  lemma {:induction false} ExploreFromContains(adj: seq<seq<int>>, v: int, k: int, cur: seq<int>, w: int)
    requires 0 <= v <= w < |adj| && InRange(cur, |adj|)
    ensures forall s :: s in Explore(adj, w + 1, k, cur + [w]) ==> s in ExploreFrom(adj, v, k, cur)
    decreases w - v
  {
    if v < w {
      ExploreFromContains(adj, v + 1, k, cur, w);
    }
  }

  /**
   * Completeness of the enumeration: every candidate extending the prefix
   * with vertices from `start` on is emitted.
   */
  lemma {:induction false} ExploreComplete(adj: seq<seq<int>>, start: int, k: int, cur: seq<int>, s: seq<int>)
    requires 0 <= start && InRange(cur, |adj|)
    requires Candidate(adj, k, s) && cur <= s && (|s| > |cur| ==> s[|cur|] >= start)
    ensures s in Explore(adj, start, k, cur)
    decreases |s| - |cur|
  {
    if |cur| == k {
      assert s == s[..|cur|] == cur;
    } else {
      var w := s[|cur|];
      var ext := cur + [w];
      assert s[..|ext|] == s[..|cur|] + [w];
      if |s| > |ext| {
        assert s[|cur|] < s[|ext|];
      }
      ExploreComplete(adj, w + 1, k, ext, s);
      ExploreFromContains(adj, start, k, cur, w);
    }
  }

  lemma {:induction false} IncreasingLength(s: seq<int>, lo: int, n: int)
    requires 0 <= lo <= n && StrictlyIncreasing(s)
    requires forall i :: 0 <= i < |s| ==> lo <= s[i] < n
    ensures |s| <= n - lo
  {
    if |s| > 0 {
      IncreasingLength(s[1..], s[0] + 1, n);
    }
  }

  /**
   * generateDominatingSets(k) lists exactly the strictly increasing
   * dominating sets of size k, each once, in lexicographic order.
   */
  lemma DominatingSetsExact(adj: seq<seq<int>>, k: int)
    ensures forall s :: s in DominatingSets(adj, k) <==> Candidate(adj, k, s)
    ensures LexSorted(DominatingSets(adj, k))
    ensures forall i, j :: 0 <= i < j < |DominatingSets(adj, k)| ==>
              DominatingSets(adj, k)[i] != DominatingSets(adj, k)[j]
  {
    var ds := DominatingSets(adj, k);
    ExploreSound(adj, 0, k, []);
    ExploreSorted(adj, 0, k, []);
    forall s | Candidate(adj, k, s)
      ensures s in ds
    {
      ExploreComplete(adj, 0, k, [], s);
    }
    forall i, j | 0 <= i < j < |ds|
      ensures ds[i] != ds[j]
    {
      LexLessIrreflexive(ds[i]);
    }
  }

  /**
   * The edge cases of the enumeration: a size larger than the vertex count
   * gives no set, and size 0 gives the empty set exactly when the graph has
   * no vertices.
   */
  lemma DominatingSetsEdgeCases(adj: seq<seq<int>>, k: int)
    ensures k > |adj| ==> DominatingSets(adj, k) == []
    ensures DominatingSets(adj, 0) == if |adj| == 0 then [[]] else []
  {
    if k > |adj| && DominatingSets(adj, k) != [] {
      ExploreSound(adj, 0, k, []);
      var s := DominatingSets(adj, k)[0];
      IncreasingLength(s, 0, |adj|);
    }
    if |adj| > 0 {
      assert !DominatedBy(adj, [], 0);
    }
  }
}
