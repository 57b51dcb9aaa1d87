/**
 * The fixed point computed by ConfigurationGraph::findSafeDominatingSets,
 * as functions: one pass over the `is_safe` flags in index order (a flag
 * cleared early in a pass is already cleared for the later sets of the same
 * pass), and the passes repeated until one changes nothing.
 *
 * A set `i` survives a pass when every vertex id below `bound` (the length of
 * the coverage buffer) lies in set `i` or in another set still flagged safe.
 * The result is characterised as the greatest family of sets that defends
 * itself in this sense.
 */
module SafeConfigurations {
  import Domination

  /** The outcome of one pass: the flags after it, and whether any flag was cleared. */
  datatype PassResult = PassResult(safe: seq<bool>, changed: bool)

  /** The coverage test for set `i`: every id below `bound` is in set `i` or in another safe set. */
  predicate Defended(bound: int, sets: seq<seq<int>>, safe: seq<bool>, i: int)
    requires |safe| == |sets| && 0 <= i < |sets|
  {
    forall w :: 0 <= w < bound ==>
      w in sets[i] || exists j :: 0 <= j < |sets| && j != i && safe[j] && w in sets[j]
  }

  /** Every set still flagged safe passes the coverage test against the flags themselves. */
  predicate SelfDefending(bound: int, sets: seq<seq<int>>, safe: seq<bool>)
    requires |safe| == |sets|
  {
    forall i :: 0 <= i < |sets| && safe[i] ==> Defended(bound, sets, safe, i)
  }

  /** Flags are only ever cleared: every flag set in `a` is set in `b`. */
  predicate Below(a: seq<bool>, b: seq<bool>) {
    |a| == |b| && forall i :: 0 <= i < |a| && a[i] ==> b[i]
  }

  /** The number of sets still flagged safe. */
  function Count(safe: seq<bool>): nat {
    multiset(safe)[true]
  }

  /** The body of the pass for set `i`: a safe set that is not defended is flagged unsafe. */
  function Step(bound: int, sets: seq<seq<int>>, safe: seq<bool>, i: int): seq<bool>
    requires |safe| == |sets| && 0 <= i < |sets|
  {
    if safe[i] && !Defended(bound, sets, safe, i) then safe[i := false] else safe
  }

  /**
   * One pass of the `for (i = 0; i < m; i++)` loop from set `i` on. The pass
   * reports a change exactly when it cleared a flag, and it never sets one.
   */
  function PassFrom(bound: int, sets: seq<seq<int>>, safe: seq<bool>, i: int): (r: PassResult)
    requires |safe| == |sets| && 0 <= i <= |sets|
    ensures Below(r.safe, safe)
    ensures forall j :: 0 <= j < i ==> r.safe[j] == safe[j]
    ensures r.changed <==> r.safe != safe
    decreases |sets| - i
  {
    if i == |sets| then PassResult(safe, false)
    else
      var next := Step(bound, sets, safe, i);
      var rest := PassFrom(bound, sets, next, i + 1);
      assert next != safe ==> rest.safe[i] != safe[i];
      PassResult(rest.safe, rest.changed || next != safe)
  }

  /** Clearing flags lowers the count, strictly when some flag is cleared. */
  lemma {:induction false} CountBelow(a: seq<bool>, b: seq<bool>)
    requires Below(a, b)
    ensures Count(a) <= Count(b)
    ensures a != b ==> Count(a) < Count(b)
  {
    if a != [] {
      var n := |a| - 1;
      assert a == a[..n] + [a[n]] && b == b[..n] + [b[n]];
      CountBelow(a[..n], b[..n]);
      if a[..n] == b[..n] && a[n] == b[n] {
        assert a == b;
      }
    }
  }

  /**
   * The `while (any_changes)` loop from the flags `safe`: passes are repeated
   * until one of them changes nothing.
   */
  function Iterate(bound: int, sets: seq<seq<int>>, safe: seq<bool>): (r: seq<bool>)
    requires |safe| == |sets|
    ensures Below(r, safe)
    decreases Count(safe)
  {
    var pass := PassFrom(bound, sets, safe, 0);
    if pass.changed then
      CountBelow(pass.safe, safe);
      Iterate(bound, sets, pass.safe)
    else safe
  }

  /** The number of passes the loop makes from `safe`; every pass but the last clears a flag. */
  function Passes(bound: int, sets: seq<seq<int>>, safe: seq<bool>): (n: nat)
    requires |safe| == |sets|
    ensures 1 <= n <= Count(safe) + 1
    decreases Count(safe)
  {
    var pass := PassFrom(bound, sets, safe, 0);
    if pass.changed then
      CountBelow(pass.safe, safe);
      1 + Passes(bound, sets, pass.safe)
    else 1
  }

  /** Every one of `n` sets flagged safe, as findSafeDominatingSets starts. */
  function AllSafe(n: nat): seq<bool> {
    seq(n, _ => true)
  }

  /** findSafeDominatingSets: the loop from every set flagged safe. */
  function SafeSets(bound: int, sets: seq<seq<int>>): seq<bool> {
    Iterate(bound, sets, AllSafe(|sets|))
  }

  /** The test only gets easier when more sets are flagged safe. */
  lemma DefendedMonotone(bound: int, sets: seq<seq<int>>, a: seq<bool>, b: seq<bool>, i: int)
    requires |a| == |sets| && Below(a, b) && 0 <= i < |sets|
    requires Defended(bound, sets, a, i)
    ensures Defended(bound, sets, b, i)
  {
    forall w | 0 <= w < bound && w !in sets[i]
      ensures exists j :: 0 <= j < |sets| && j != i && b[j] && w in sets[j]
    {
      var j :| 0 <= j < |sets| && j != i && a[j] && w in sets[j];
    }
  }

  /** A pass that changes nothing leaves only defended sets flagged, from `i` on. */
  lemma {:induction false} QuietPassDefended(bound: int, sets: seq<seq<int>>, safe: seq<bool>, i: int)
    requires |safe| == |sets| && 0 <= i <= |sets|
    requires !PassFrom(bound, sets, safe, i).changed
    ensures forall j :: i <= j < |sets| && safe[j] ==> Defended(bound, sets, safe, j)
    decreases |sets| - i
  {
    if i < |sets| {
      QuietPassDefended(bound, sets, safe, i + 1);
    }
  }

  /** On return every set still flagged safe passes the coverage test. */
  lemma {:induction false} IterateSelfDefending(bound: int, sets: seq<seq<int>>, safe: seq<bool>)
    requires |safe| == |sets|
    ensures SelfDefending(bound, sets, Iterate(bound, sets, safe))
    decreases Count(safe)
  {
    var pass := PassFrom(bound, sets, safe, 0);
    if pass.changed {
      CountBelow(pass.safe, safe);
      IterateSelfDefending(bound, sets, pass.safe);
    } else {
      QuietPassDefended(bound, sets, safe, 0);
    }
  }

  /** A pass never clears the flag of a set in a self-defending family below the flags. */
  lemma {:induction false} PassKeeps(bound: int, sets: seq<seq<int>>, s: seq<bool>, safe: seq<bool>, i: int)
    requires |safe| == |sets| && 0 <= i <= |sets|
    requires Below(s, safe) && SelfDefending(bound, sets, s)
    ensures Below(s, PassFrom(bound, sets, safe, i).safe)
    decreases |sets| - i
  {
    if i < |sets| {
      if s[i] {
        DefendedMonotone(bound, sets, s, safe, i);
      }
      PassKeeps(bound, sets, s, Step(bound, sets, safe, i), i + 1);
    }
  }

  lemma {:induction false} IterateKeeps(bound: int, sets: seq<seq<int>>, s: seq<bool>, safe: seq<bool>)
    requires |safe| == |sets| && Below(s, safe) && SelfDefending(bound, sets, s)
    ensures Below(s, Iterate(bound, sets, safe))
    decreases Count(safe)
  {
    var pass := PassFrom(bound, sets, safe, 0);
    PassKeeps(bound, sets, s, safe, 0);
    if pass.changed {
      CountBelow(pass.safe, safe);
      IterateKeeps(bound, sets, s, pass.safe);
    }
  }

  /**
   * findSafeDominatingSets returns one flag per set, and the flagged sets
   * form the greatest self-defending family: they defend themselves, and
   * every self-defending family is flagged.
   */
  lemma SafeSetsGreatest(bound: int, sets: seq<seq<int>>)
    ensures |SafeSets(bound, sets)| == |sets|
    ensures SelfDefending(bound, sets, SafeSets(bound, sets))
    ensures forall s :: |s| == |sets| && SelfDefending(bound, sets, s) ==> Below(s, SafeSets(bound, sets))
  {
    var all := AllSafe(|sets|);
    IterateSelfDefending(bound, sets, all);
    forall s | |s| == |sets| && SelfDefending(bound, sets, s)
      ensures Below(s, SafeSets(bound, sets))
    {
      IterateKeeps(bound, sets, s, all);
    }
  }

  /** A pass over a self-defending family clears nothing. */
  lemma {:induction false} PassStable(bound: int, sets: seq<seq<int>>, safe: seq<bool>, i: int)
    requires |safe| == |sets| && 0 <= i <= |sets| && SelfDefending(bound, sets, safe)
    ensures PassFrom(bound, sets, safe, i) == PassResult(safe, false)
    decreases |sets| - i
  {
    if i < |sets| {
      PassStable(bound, sets, safe, i + 1);
    }
  }

  /**
   * The result is a fixed point: running the loop again from it changes no
   * flag and takes a single pass.
   */
  lemma SafeSetsFixedPoint(bound: int, sets: seq<seq<int>>)
    ensures Iterate(bound, sets, SafeSets(bound, sets)) == SafeSets(bound, sets)
    ensures Passes(bound, sets, SafeSets(bound, sets)) == 1
  {
    SafeSetsGreatest(bound, sets);
    PassStable(bound, sets, SafeSets(bound, sets), 0);
  }

  /**
   * An id below the buffer length that no set contains can never be
   * covered, so every set ends up flagged unsafe.
   */
  lemma UncoveredIdClearsAll(bound: int, sets: seq<seq<int>>, w: int)
    requires 0 <= w < bound
    requires forall i :: 0 <= i < |sets| ==> w !in sets[i]
    ensures SafeSets(bound, sets) == seq(|sets|, _ => false)
  {
    SafeSetsGreatest(bound, sets);
    var r := SafeSets(bound, sets);
    forall i | 0 <= i < |sets| ensures !r[i] {
      assert w !in sets[i];
      assert !(exists j :: 0 <= j < |sets| && j != i && r[j] && w in sets[j]);
      assert !Defended(bound, sets, r, i);
    }
  }

  /**
   * The six vertex pairs of a four-vertex graph, in the order the
   * enumeration lists them; in the complete graph K4 they are exactly its
   * dominating sets of size two.
   */
  function K4Pairs(): seq<seq<int>> {
    [[0, 1], [0, 2], [0, 3], [1, 2], [1, 3], [2, 3]]
  }

  /**
   * The complete graph on four vertices as the adjacency lists that inserting
   * the edges of K4Pairs in order leaves behind (insertEdge pushes each new
   * neighbour to the front of its list).
   */
  function K4(): seq<seq<int>> {
    [[3, 2, 1], [3, 2, 0], [3, 1, 0], [2, 1, 0]]
  }

  /** Any set holding a vertex of K4 dominates it. */
  lemma K4Dominates(s: seq<int>)
    requires |s| > 0 && 0 <= s[0] < 4
    ensures Domination.Dominates(K4(), s)
  {
    forall w | 0 <= w < 4 ensures Domination.DominatedBy(K4(), s, w) {
      assert w == s[0] || w in K4()[s[0]];
    }
  }

  /** The pairs `[a, v]`, `[a, v + 1]`, ..., `[a, 3]`. */
  function K4Row(a: int, v: int): seq<seq<int>>
    decreases 4 - v
  {
    if v >= 4 then [] else [[a, v]] + K4Row(a, v + 1)
  }

  /** The rows of pairs whose first vertex is `v` or later. */
  function K4Rows(v: int): seq<seq<int>>
    decreases 4 - v
  {
    if v >= 4 then [] else K4Row(v, v + 1) + K4Rows(v + 1)
  }

  /** With `a` chosen, the enumeration in K4 lists every later vertex as the second one. */
  lemma {:induction false} K4RowExplored(a: int, v: int)
    requires 0 <= a < 4 && 0 <= v
    ensures Domination.ExploreFrom(K4(), v, 2, [a]) == K4Row(a, v)
    decreases 4 - v
  {
    if v < 4 {
      assert [a] + [v] == [a, v];
      K4Dominates([a, v]);
      K4RowExplored(a, v + 1);
    }
  }

  /** From vertex `v` on, the enumeration in K4 lists the rows of every first vertex `v` or later. */
  lemma {:induction false} K4RowsExplored(v: int)
    requires 0 <= v
    ensures Domination.ExploreFrom(K4(), v, 2, []) == K4Rows(v)
    decreases 4 - v
  {
    if v < 4 {
      assert [] + [v] == [v];
      K4RowExplored(v, v + 1);
      K4RowsExplored(v + 1);
    }
  }

  /** generateDominatingSets(2) on K4 yields exactly the six pairs, in the order K4Pairs lists them. */
  lemma K4DominatingPairs()
    ensures Domination.DominatingSets(K4(), 2) == K4Pairs()
  {
    K4RowsExplored(0);
    assert K4Rows(0) == K4Pairs();
  }

  /**
   * With the coverage buffer sized by the number of configurations (six)
   * instead of the number of vertices (four), ids 4 and 5 are never covered
   * and every pair is reported unsafe.
   */
  lemma K4PairsBufferTooLong()
    ensures SafeSets(|K4Pairs()|, K4Pairs()) == seq(6, _ => false)
  {
    UncoveredIdClearsAll(|K4Pairs()|, K4Pairs(), 4);
  }

  /**
   * With the buffer sized by the number of vertices, every pair of K4 is
   * safe: each vertex lies in two of the pairs, so the other pairs always
   * cover it.
   */
  lemma K4PairsAllSafe()
    ensures SafeSets(4, K4Pairs()) == seq(6, _ => true)
  {
    var sets := K4Pairs();
    var all := seq(6, _ => true);
    forall i | 0 <= i < 6 ensures Defended(4, sets, all, i) {
      forall w | 0 <= w < 4
        ensures w in sets[i] || exists j :: 0 <= j < 6 && j != i && all[j] && w in sets[j]
      {
        var first, second := [0, 0, 1, 2][w], [1, 3, 3, 4][w];
        var j := if i != first then first else second;
        assert w in sets[j];
      }
    }
    SafeSetsGreatest(4, sets);
    assert Below(all, SafeSets(4, sets));
  }
}
