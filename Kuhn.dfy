/**
 * Kuhn's augmenting-path matching as BipartiteGraph::findAugmentingPath and
 * BipartiteGraph::maxMatching run it, written as functions on the values the
 * methods update in place: the `match` vector (right vertex -> left vertex or
 * -1) and the per-root `marked` vector of left vertices.
 *
 * Vertices 0 .. p-1 are the left side, p .. p+q-1 the right side; `adj` is
 * the adjacency lists of all p+q vertices, and `match` has one entry per
 * vertex (left entries stay -1).
 */
module Kuhn {

  /** The outcome of one augmenting-path search: success, and the vectors after it. */
  datatype Search = Search(found: bool, mate: seq<int>, marked: seq<bool>)

  /** The state of maxMatching's root loop: the count of successful roots and the match vector. */
  datatype Matching = Matching(size: int, mate: seq<int>)

  /** Every neighbour of a left vertex is a right vertex. */
  predicate LeftToRight(adj: seq<seq<int>>, p: int) {
    0 <= p <= |adj| &&
    forall x, i :: 0 <= x < p && 0 <= i < |adj[x]| ==> p <= adj[x][i] < |adj|
  }

  /** Every entry of the match vector is -1 or a left vertex. */
  predicate MatchInRange(m: seq<int>, p: int) {
    forall u :: 0 <= u < |m| ==> -1 <= m[u] < p
  }

  /** Every matched entry `u` is joined to its left vertex `m[u]`. */
  predicate MatchRespects(adj: seq<seq<int>>, m: seq<int>) {
    forall u :: 0 <= u < |m| && 0 <= m[u] < |adj| ==> u in adj[m[u]]
  }

  /** Marks are only ever added. */
  predicate Grows(before: seq<bool>, after: seq<bool>) {
    |before| == |after| && forall i :: 0 <= i < |before| && before[i] ==> after[i]
  }

  /** The number of unmarked left vertices: the measure that bounds the recursion. */
  function Unmarked(marked: seq<bool>): nat {
    multiset(marked)[false]
  }

  /** A match vector with every entry free, as maxMatching initialises it. */
  function Unmatched(n: nat): seq<int> {
    seq(n, _ => -1)
  }

  /** A `marked` vector with no left vertex marked, as each root of maxMatching starts. */
  function NoMarks(p: nat): seq<bool> {
    seq(p, _ => false)
  }

  /**
   * findAugmentingPath(v): fail at once if `v` is marked; otherwise mark it
   * and try its neighbours in list order.
   */
  function Augment(adj: seq<seq<int>>, v: int, m: seq<int>, marked: seq<bool>): (r: Search)
    requires |adj| == |m| && LeftToRight(adj, |marked|)
    requires 0 <= v < |marked| && MatchInRange(m, |marked|)
    ensures |r.mate| == |m| && |r.marked| == |marked|
    ensures MatchInRange(r.mate, |marked|)
    ensures Unmarked(r.marked) <= Unmarked(marked)
    ensures !r.found ==> r.mate == m
    decreases Unmarked(marked), 0
  {
    if marked[v] then Search(false, m, marked)
    else
      assert Unmarked(marked[v := true]) == Unmarked(marked) - 1;
      AugmentLoop(adj, v, adj[v], m, marked[v := true])
  }

  /**
   * The loop of findAugmentingPath over the neighbours `nbrs` of `v` still to
   * try: a free right vertex, or one whose partner can be re-matched
   * elsewhere, is given to `v`.
   */
  function AugmentLoop(adj: seq<seq<int>>, v: int, nbrs: seq<int>, m: seq<int>, marked: seq<bool>): (r: Search)
    requires |adj| == |m| && LeftToRight(adj, |marked|)
    requires 0 <= v < |marked| && MatchInRange(m, |marked|)
    requires forall i :: 0 <= i < |nbrs| ==> |marked| <= nbrs[i] < |m|
    ensures |r.mate| == |m| && |r.marked| == |marked|
    ensures MatchInRange(r.mate, |marked|)
    ensures Unmarked(r.marked) <= Unmarked(marked)
    ensures !r.found ==> r.mate == m
    decreases Unmarked(marked), |nbrs|
  {
    if nbrs == [] then Search(false, m, marked)
    else
      var u := nbrs[0];
      if m[u] == -1 then Search(true, m[u := v], marked)
      else
        var sub := Augment(adj, m[u], m, marked);
        if sub.found then Search(true, sub.mate[u := v], sub.marked)
        else AugmentLoop(adj, v, nbrs[1..], sub.mate, sub.marked)
  }

  /**
   * maxMatching's root loop after roots 0 .. v-1: each root gets a fresh,
   * all-false `marked` vector, and a successful search adds one to the size.
   */
  function KuhnUpTo(adj: seq<seq<int>>, p: nat, v: nat): (r: Matching)
    requires LeftToRight(adj, p) && v <= p
    ensures |r.mate| == |adj| && MatchInRange(r.mate, p)
    decreases v
  {
    if v == 0 then Matching(0, Unmatched(|adj|))
    else
      var prev := KuhnUpTo(adj, p, v - 1);
      var search := Augment(adj, v - 1, prev.mate, NoMarks(p));
      Matching(if search.found then prev.size + 1 else prev.size, search.mate)
  }

  /** One more root: the search from root `v` with no marks, applied to the state after roots 0 .. v-1. */
  lemma KuhnUpToNext(adj: seq<seq<int>>, p: nat, v: nat, size: int, m: seq<int>)
    requires LeftToRight(adj, p) && v < p && KuhnUpTo(adj, p, v) == Matching(size, m)
    ensures |m| == |adj| && MatchInRange(m, p) && |NoMarks(p)| == p
    ensures var search := Augment(adj, v, m, NoMarks(p));
      KuhnUpTo(adj, p, v + 1) == Matching(if search.found then size + 1 else size, search.mate)
  {
  }

  /** The size and the match vector maxMatching returns. */
  function MaxMatching(adj: seq<seq<int>>, p: nat): Matching
    requires LeftToRight(adj, p)
  {
    KuhnUpTo(adj, p, p)
  }

  /** On success the multiset of entries trades one -1 for `v`: one free entry is now held by `v`. */
  predicate Trades(m: seq<int>, r: seq<int>, v: int) {
    multiset(r) + multiset{-1} == multiset(m) + multiset{v}
  }

  /** No matched entry becomes free. */
  predicate StaysMatched(m: seq<int>, r: seq<int>) {
    |r| == |m| && forall u :: 0 <= u < |m| && m[u] != -1 ==> r[u] != -1
  }

  /** Entries held by `v` or by a marked left vertex are untouched. */
  predicate Keeps(m: seq<int>, r: seq<int>, marked: seq<bool>, v: int) {
    |r| == |m| && MatchInRange(m, |marked|) &&
    forall u :: 0 <= u < |m| && m[u] != -1 && (m[u] == v || marked[m[u]]) ==> r[u] == m[u]
  }

  /** The left entries (the first `p`) are untouched. */
  predicate LeftUnchanged(m: seq<int>, r: seq<int>, p: int) {
    0 <= p <= |m| == |r| && r[..p] == m[..p]
  }

  /** The guarantees of AugmentLoop for root `v` under marks `marked`. */
  predicate LoopEffect(adj: seq<seq<int>>, m: seq<int>, marked: seq<bool>, v: int, r: Search) {
    && |r.mate| == |m|
    && Grows(marked, r.marked)
    && (r.found ==> Trades(m, r.mate, v))
    && StaysMatched(m, r.mate)
    && Keeps(m, r.mate, marked, -1)
    && LeftUnchanged(m, r.mate, |marked|)
    && MatchRespects(adj, r.mate)
  }

  /**
   * What one augmenting-path search does to the match vector. On failure it
   * is unchanged; on success one -1 entry becomes matched and `v` gains one
   * entry, so the multiset of entries trades a -1 for `v`. Matched entries
   * stay matched, and entries held by `v` or by a left vertex already marked
   * are not touched. Only right entries change, each to an adjacent left
   * vertex, and marks are only added.
   */
  lemma {:induction false} AugmentEffect(adj: seq<seq<int>>, v: int, m: seq<int>, marked: seq<bool>)
    requires |adj| == |m| && LeftToRight(adj, |marked|)
    requires 0 <= v < |marked| && MatchInRange(m, |marked|) && MatchRespects(adj, m)
    ensures var r := Augment(adj, v, m, marked);
      && LoopEffect(adj, m, marked, v, r)
      && (r.found ==> !marked[v])
      && Keeps(m, r.mate, marked, v)
    decreases Unmarked(marked), 0
  {
    if !marked[v] {
      var marked' := marked[v := true];
      assert Unmarked(marked') == Unmarked(marked) - 1;
      forall i | 0 <= i < |adj[v]| ensures adj[v][i] in adj[v] { }
      AugmentLoopEffect(adj, v, adj[v], m, marked');
      var r := AugmentLoop(adj, v, adj[v], m, marked');
      assert Keeps(m, r.mate, marked', -1);
    }
  }

  lemma {:induction false} AugmentLoopEffect(adj: seq<seq<int>>, v: int, nbrs: seq<int>, m: seq<int>, marked: seq<bool>)
    requires |adj| == |m| && LeftToRight(adj, |marked|)
    requires 0 <= v < |marked| && MatchInRange(m, |marked|) && MatchRespects(adj, m)
    requires forall i :: 0 <= i < |nbrs| ==> |marked| <= nbrs[i] < |m| && nbrs[i] in adj[v]
    requires marked[v]
    ensures LoopEffect(adj, m, marked, v, AugmentLoop(adj, v, nbrs, m, marked))
    decreases Unmarked(marked), |nbrs|
  {
    if nbrs != [] {
      var u := nbrs[0];
      if m[u] == -1 {
        FreeStep(adj, v, u, m, marked);
      } else {
        var w := m[u];
        var sub := Augment(adj, w, m, marked);
        AugmentEffect(adj, w, m, marked);
        if sub.found {
          ChainStep(adj, v, u, m, marked, sub);
        } else {
          AugmentLoopEffect(adj, v, nbrs[1..], sub.mate, sub.marked);
          var r := AugmentLoop(adj, v, nbrs[1..], sub.mate, sub.marked);
          assert Keeps(m, r.mate, sub.marked, -1);
        }
      }
    }
  }

  /** The free case of the loop: `u` is unmatched and is given to `v`. */
  lemma FreeStep(adj: seq<seq<int>>, v: int, u: int, m: seq<int>, marked: seq<bool>)
    requires |adj| == |m| && 0 <= v < |marked| <= u < |m| && m[u] == -1 && u in adj[v]
    requires MatchInRange(m, |marked|) && MatchRespects(adj, m)
    ensures LoopEffect(adj, m, marked, v, Search(true, m[u := v], marked))
  {
    var r := m[u := v];
    assert multiset(r) == multiset(m) - multiset{-1} + multiset{v};
    assert r[..|marked|] == m[..|marked|];
  }

  /**
   * The chain case of the loop: `u`'s partner `m[u]` found another right
   * vertex, and `u` is handed to `v`.
   */
  lemma ChainStep(adj: seq<seq<int>>, v: int, u: int, m: seq<int>, marked: seq<bool>, sub: Search)
    requires |adj| == |m| && 0 <= v < |marked| <= u < |m| && u in adj[v] && marked[v]
    requires MatchInRange(m, |marked|) && MatchRespects(adj, m) && m[u] != -1
    requires sub.found && !marked[m[u]]
    requires LoopEffect(adj, m, marked, m[u], sub) && Keeps(m, sub.mate, marked, m[u])
    ensures LoopEffect(adj, m, marked, v, Search(true, sub.mate[u := v], sub.marked))
  {
    var w := m[u];
    assert sub.mate[u] == w;
    var r := sub.mate[u := v];
    assert multiset(r) == multiset(sub.mate) - multiset{w} + multiset{v};
    assert Trades(m, sub.mate, w);
    assert multiset(r) + multiset{-1} == multiset(sub.mate) + multiset{-1} - multiset{w} + multiset{v};
    assert r[..|marked|] == sub.mate[..|marked|];
    assert LeftUnchanged(m, sub.mate, |marked|);
    forall u' | 0 <= u' < |m| && m[u'] != -1 && marked[m[u']]
      ensures r[u'] == m[u']
    {
      assert u' != u;
    }
  }

  lemma NoLargeValues(m: seq<int>, bound: int)
    requires forall u :: 0 <= u < |m| ==> m[u] < bound
    ensures multiset(m)[bound] == 0
  {
    assert bound !in m;
  }

  /** The entries of an all -1 vector. */
  lemma {:induction false} UnmatchedCountAll(n: nat)
    ensures multiset(Unmatched(n))[-1] == n
  {
    if n > 0 {
      assert Unmatched(n) == Unmatched(n - 1) + [-1];
      UnmatchedCountAll(n - 1);
    }
  }

  /** A multiset count of at most one rules out the value at two positions. */
  lemma TwoPositions(m: seq<int>, i: int, j: int)
    requires 0 <= i < j < |m| && m[i] == m[j]
    ensures multiset(m)[m[i]] >= 2
  {
    assert m == m[..j] + m[j..];
    assert m[..j][i] == m[i];
    assert m[j..][0] == m[j];
    assert multiset(m) == multiset(m[..j]) + multiset(m[j..]);
  }

  /** The invariant of maxMatching's root loop after roots 0 .. v-1. */
  ghost predicate RootInvariant(adj: seq<seq<int>>, p: int, v: int, r: Matching) {
    && |r.mate| == |adj|
    && 0 <= p <= |adj|
    && (forall u :: 0 <= u < p ==> r.mate[u] == -1)
    && (forall u :: 0 <= u < |adj| ==> -1 <= r.mate[u] < v)
    && MatchRespects(adj, r.mate)
    && (forall x :: x != -1 ==> multiset(r.mate)[x] <= 1)
    && r.size == |adj| - multiset(r.mate)[-1]
    && r.size <= v
  }

  /** The search from root `v` with every mark cleared keeps the invariant, with `v` now below the bound. */
  lemma RootStep(adj: seq<seq<int>>, p: nat, v: nat, prev: Matching)
    requires LeftToRight(adj, p) && v < p
    requires RootInvariant(adj, p, v, prev)
    ensures var search := Augment(adj, v, prev.mate, NoMarks(p));
      RootInvariant(adj, p, v + 1, Matching(if search.found then prev.size + 1 else prev.size, search.mate))
  {
    var search := Augment(adj, v, prev.mate, NoMarks(p));
    AugmentEffect(adj, v, prev.mate, NoMarks(p));
    RootUpdate(adj, p, v, prev, search);
  }

  /** One root of maxMatching keeps the invariant, with root `v` now below the bound. */
  lemma RootUpdate(adj: seq<seq<int>>, p: nat, v: nat, prev: Matching, search: Search)
    requires LeftToRight(adj, p) && v < p
    requires RootInvariant(adj, p, v, prev)
    requires LoopEffect(adj, prev.mate, NoMarks(p), v, search)
    requires !search.found ==> search.mate == prev.mate
    ensures RootInvariant(adj, p, v + 1,
              Matching(if search.found then prev.size + 1 else prev.size, search.mate))
  {
    assert LeftUnchanged(prev.mate, search.mate, p);
    forall u | 0 <= u < p ensures search.mate[u] == -1 {
      assert search.mate[..p][u] == prev.mate[..p][u];
    }
    if search.found {
      TradeBounds(prev.mate, search.mate, v);
    }
  }

  /**
   * Trading a -1 for `v`, where every entry was below `v` and every value
   * other than -1 occurred at most once: entries are now below `v + 1`, and
   * still no value other than -1 occurs twice.
   */
  lemma TradeBounds(m: seq<int>, r: seq<int>, v: int)
    requires Trades(m, r, v) && v != -1
    requires forall u :: 0 <= u < |m| ==> -1 <= m[u] < v
    requires forall x :: x != -1 ==> multiset(m)[x] <= 1
    ensures forall u :: 0 <= u < |r| ==> -1 <= r[u] < v + 1
    ensures forall x :: x != -1 ==> multiset(r)[x] <= 1
    ensures multiset(r)[-1] + 1 == multiset(m)[-1]
  {
    NoLargeValues(m, v);
    var ms := multiset(r);
    forall x ensures ms[x] + (if x == -1 then 1 else 0) == multiset(m)[x] + (if x == v then 1 else 0) {
      assert (ms + multiset{-1})[x] == (multiset(m) + multiset{v})[x];
    }
    forall u | 0 <= u < |r|
      ensures -1 <= r[u] < v + 1
    {
      var x := r[u];
      assert x in ms;
      if x != v && x != -1 {
        assert x in multiset(m);
        assert x in m;
      }
    }
  }

  /**
   * The state of maxMatching after roots 0 .. v-1: a matching of the
   * bipartite graph whose entries are all below v, in which no left vertex
   * occurs twice, and whose size is the number of matched entries.
   */
  lemma {:induction false} KuhnInvariant(adj: seq<seq<int>>, p: nat, v: nat)
    requires LeftToRight(adj, p) && v <= p
    ensures RootInvariant(adj, p, v, KuhnUpTo(adj, p, v))
  {
    if v == 0 {
      KuhnStart(adj, p);
    } else {
      KuhnInvariant(adj, p, v - 1);
      KuhnStep(adj, p, v);
    }
  }

  /** Before the first root every entry is free and the size is zero. */
  lemma KuhnStart(adj: seq<seq<int>>, p: nat)
    requires LeftToRight(adj, p)
    ensures RootInvariant(adj, p, 0, KuhnUpTo(adj, p, 0))
  {
    var m := Unmatched(|adj|);
    UnmatchedCountAll(|adj|);
    forall x | x != -1 ensures multiset(m)[x] <= 1 {
      assert x !in m;
    }
  }

  /** The root loop's step from root v-1 to root v keeps the invariant. */
  lemma KuhnStep(adj: seq<seq<int>>, p: nat, v: nat)
    requires LeftToRight(adj, p) && 0 < v <= p
    requires RootInvariant(adj, p, v - 1, KuhnUpTo(adj, p, v - 1))
    ensures RootInvariant(adj, p, v, KuhnUpTo(adj, p, v))
  {
    RootStep(adj, p, v - 1, KuhnUpTo(adj, p, v - 1));
  }

  /**
   * The result of maxMatching: the vector has one entry per vertex, left
   * entries are -1, each right entry is -1 or a left vertex joined to it, no
   * left vertex is the partner of two right vertices, and the size is the
   * number of matched right entries, so at most min(p, q).
   */
  lemma MaxMatchingValid(adj: seq<seq<int>>, p: nat)
    requires LeftToRight(adj, p)
    ensures var r := MaxMatching(adj, p);
      && |r.mate| == |adj|
      && (forall u :: 0 <= u < p ==> r.mate[u] == -1)
      && (forall u :: p <= u < |adj| ==> r.mate[u] == -1 || (0 <= r.mate[u] < p && u in adj[r.mate[u]]))
      && (forall u1, u2 :: p <= u1 < u2 < |adj| && r.mate[u1] != -1 ==> r.mate[u1] != r.mate[u2])
      && r.size == (|adj| - p) - multiset(r.mate[p..])[-1]
      && 0 <= r.size <= p && r.size <= |adj| - p
  {
    var r := MaxMatching(adj, p);
    KuhnInvariant(adj, p, p);
    MatchedOnce(r.mate);
    FreeCount(r.mate, p);
  }

  /** A vector in which every value other than -1 occurs at most once holds no such value twice. */
  lemma MatchedOnce(m: seq<int>)
    requires forall x :: x != -1 ==> multiset(m)[x] <= 1
    ensures forall u1, u2 :: 0 <= u1 < u2 < |m| && m[u1] != -1 ==> m[u1] != m[u2]
  {
    forall u1, u2 | 0 <= u1 < u2 < |m| && m[u1] != -1
      ensures m[u1] != m[u2]
    {
      if m[u1] == m[u2] {
        TwoPositions(m, u1, u2);
      }
    }
  }

  /** With the first `p` entries free, the free entries are those `p` and the free right entries. */
  lemma FreeCount(m: seq<int>, p: nat)
    requires p <= |m| && forall u :: 0 <= u < p ==> m[u] == -1
    ensures multiset(m)[-1] == p + multiset(m[p..])[-1]
    ensures multiset(m[p..])[-1] <= |m| - p
  {
    assert m == m[..p] + m[p..];
    assert m[..p] == Unmatched(p);
    UnmatchedCountAll(p);
    assert multiset(m) == multiset(m[..p]) + multiset(m[p..]);
    assert |multiset(m[p..])| == |m| - p;
  }
}
