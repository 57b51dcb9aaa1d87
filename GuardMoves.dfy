/**
 * The guard-transition test of Graph::isGuardTransition as functions: the
 * position table of the second configuration, the k-by-k bipartite graph of
 * allowed guard moves in the order the source lists its edges, and the
 * perfect-matching test on it. The soundness lemma turns a successful test
 * into an explicit assignment of guards to target vertices.
 */
module GuardMoves {
  import opened Common
  import opened AdjacencyLists
  import Domination
  import Kuhn
  import Bipartite

  /**
   * The entry of `order_in_dominating_set_2` for vertex `u`: the last
   * position of `u` in `s` (later positions overwrite earlier ones), or -1.
   */
  function LastIndex(s: seq<int>, u: int): (r: int)
    ensures -1 <= r < |s|
    ensures r == -1 <==> u !in s
    ensures r >= 0 ==> s[r] == u && forall j :: r < j < |s| ==> s[j] != u
  {
    if s == [] then -1
    else if s[|s| - 1] == u then |s| - 1
    else LastIndex(s[..|s| - 1], u)
  }

  /** A guard on `x` may move to `y`: it stays, or it moves along an edge. */
  predicate Link(adj: seq<seq<int>>, x: int, y: int) {
    y == x || Adjacent(adj, x, y)
  }

  /** The edge for a target vertex `y`, if `y` occurs in the second configuration. */
  function TargetEdge(s2: seq<int>, k: int, i: int, y: int): seq<Edge> {
    var t := LastIndex(s2, y);
    if t >= 0 then [Edge(i, k + t)] else []
  }

  /** The edges the neighbour loop of left vertex `i` has appended after the neighbours `nbrs`. */
  function RowEdges(s2: seq<int>, k: int, i: int, nbrs: seq<int>): seq<Edge> {
    if nbrs == [] then []
    else RowEdges(s2, k, i, nbrs[..|nbrs| - 1]) + TargetEdge(s2, k, i, nbrs[|nbrs| - 1])
  }

  /** All edges of left vertex `i`: one per neighbour in the second configuration, then its own vertex. */
  function SlotEdges(adj: seq<seq<int>>, s1: seq<int>, s2: seq<int>, i: int): seq<Edge>
    requires 0 <= i < |s1| && Domination.InRange(s1, |adj|)
  {
    RowEdges(s2, |s1|, i, adj[s1[i]]) + TargetEdge(s2, |s1|, i, s1[i])
  }

  /** The edge list after the first `v` left vertices. */
  function TransitionEdges(adj: seq<seq<int>>, s1: seq<int>, s2: seq<int>, v: int): seq<Edge>
    requires 0 <= v <= |s1| && Domination.InRange(s1, |adj|)
  {
    if v == 0 then [] else TransitionEdges(adj, s1, s2, v - 1) + SlotEdges(adj, s1, s2, v - 1)
  }

  /**
   * The edge (i, k + t) joins guard slot `i` of the first configuration to
   * target slot `t` of the second: the guard may move to that target, and `t`
   * is the target vertex's last position.
   */
  predicate Linked(adj: seq<seq<int>>, s1: seq<int>, s2: seq<int>, e: Edge)
    requires Domination.InRange(s1, |adj|)
  {
    var k := |s1|;
    0 <= e.v1 < k && k <= e.v2 < k + |s2| &&
    Link(adj, s1[e.v1], s2[e.v2 - k]) && LastIndex(s2, s2[e.v2 - k]) == e.v2 - k
  }

  /** isGuardTransition: equal sizes, and a matching of the move graph that covers every slot. */
  function GuardTransition(adj: seq<seq<int>>, s1: seq<int>, s2: seq<int>): bool
    requires |s1| == |s2| ==> Domination.InRange(s1, |adj|)
  {
    var k := |s1|;
    if |s1| != |s2| then false
    else match Bipartite.InsertAll(k, k, EmptyAdj(k + k), TransitionEdges(adj, s1, s2, k))
    case Failure(_) => false
    case Success(moves) =>
      Bipartite.BipartitionLeftToRight(moves, k);
      Kuhn.MaxMatching(moves, k).size == k
  }

  /**
   * A way to carry out the move: target slot `j` receives the guard from
   * slot `a[j]`, which may move there, and no guard is used twice.
   */
  predicate Assignment(adj: seq<seq<int>>, s1: seq<int>, s2: seq<int>, a: seq<int>)
    requires Domination.InRange(s1, |adj|)
  {
    && |a| == |s2|
    && (forall j :: 0 <= j < |a| ==> 0 <= a[j] < |s1| && Link(adj, s1[a[j]], s2[j]))
    && (forall j1, j2 :: 0 <= j1 < j2 < |a| ==> a[j1] != a[j2])
  }

  lemma {:induction false} RowEdgesExact(s2: seq<int>, k: int, i: int, nbrs: seq<int>, e: Edge)
    ensures e in RowEdges(s2, k, i, nbrs) <==>
              e.v1 == i && k <= e.v2 < k + |s2| && s2[e.v2 - k] in nbrs && LastIndex(s2, s2[e.v2 - k]) == e.v2 - k
  {
    if nbrs != [] {
      var init := nbrs[..|nbrs| - 1];
      RowEdgesExact(s2, k, i, init, e);
      assert nbrs == init + [nbrs[|nbrs| - 1]];
    }
  }

  lemma SlotEdgesExact(adj: seq<seq<int>>, s1: seq<int>, s2: seq<int>, i: int, e: Edge)
    requires 0 <= i < |s1| && Domination.InRange(s1, |adj|)
    ensures e in SlotEdges(adj, s1, s2, i) <==> Linked(adj, s1, s2, e) && e.v1 == i
  {
    var k := |s1|;
    RowEdgesExact(s2, k, i, adj[s1[i]], e);
    if Linked(adj, s1, s2, e) && e.v1 == i && s2[e.v2 - k] == s1[i] {
      assert e in TargetEdge(s2, k, i, s1[i]);
    }
  }

  /** The edges of the first `v` slots are exactly the links from those slots. */
  lemma {:induction false} TransitionEdgesExact(adj: seq<seq<int>>, s1: seq<int>, s2: seq<int>, v: int)
    requires 0 <= v <= |s1| && Domination.InRange(s1, |adj|)
    ensures forall e {:trigger e in TransitionEdges(adj, s1, s2, v)} :: e in TransitionEdges(adj, s1, s2, v) <==> Linked(adj, s1, s2, e) && e.v1 < v
  {
    if v > 0 {
      TransitionEdgesExact(adj, s1, s2, v - 1);
      SlotEdgesAllExact(adj, s1, s2, v - 1);
    }
  }

  lemma SlotEdgesAllExact(adj: seq<seq<int>>, s1: seq<int>, s2: seq<int>, i: int)
    requires 0 <= i < |s1| && Domination.InRange(s1, |adj|)
    ensures forall e {:trigger e in SlotEdges(adj, s1, s2, i)} :: e in SlotEdges(adj, s1, s2, i) <==> Linked(adj, s1, s2, e) && e.v1 == i
  {
    forall e ensures e in SlotEdges(adj, s1, s2, i) <==> Linked(adj, s1, s2, e) && e.v1 == i {
      SlotEdgesExact(adj, s1, s2, i, e);
    }
  }

  /** Every listed edge crosses the sides of the k-by-k move graph, so building it cannot fail. */
  lemma TransitionGraphBuilt(adj: seq<seq<int>>, s1: seq<int>, s2: seq<int>)
    requires Domination.InRange(s1, |adj|) && |s1| == |s2|
    ensures Bipartite.AllCross(|s1|, |s1|, TransitionEdges(adj, s1, s2, |s1|))
  {
    var k := |s1|;
    var edges := TransitionEdges(adj, s1, s2, k);
    TransitionEdgesExact(adj, s1, s2, k);
    forall i | 0 <= i < |edges| ensures Bipartite.ValidateCrossing(k, k, edges[i]) == Pass {
      assert edges[i] in edges;
      assert Linked(adj, s1, s2, edges[i]);
    }
  }

  /** Every edge of `moves` out of a left slot is a link between the configurations. */
  ghost predicate OnlyLinks(adj: seq<seq<int>>, s1: seq<int>, s2: seq<int>, moves: seq<seq<int>>)
    requires Domination.InRange(s1, |adj|)
  {
    forall i, r :: 0 <= i < |s1| && Adjacent(moves, i, r) ==> Linked(adj, s1, s2, Edge(i, r))
  }

  /** Every listed edge is a link. */
  lemma TransitionEdgesLinked(adj: seq<seq<int>>, s1: seq<int>, s2: seq<int>)
    requires Domination.InRange(s1, |adj|)
    ensures forall e :: e in TransitionEdges(adj, s1, s2, |s1|) ==> Linked(adj, s1, s2, e)
  {
    TransitionEdgesExact(adj, s1, s2, |s1|);
  }

  /** A graph holding only pairs of listed links holds only links. */
  lemma PairsOfLinks(adj: seq<seq<int>>, s1: seq<int>, s2: seq<int>, edges: seq<Edge>, moves: seq<seq<int>>)
    requires Domination.InRange(s1, |adj|)
    requires forall e :: e in edges ==> Linked(adj, s1, s2, e)
    requires forall u, v :: Adjacent(moves, u, v) ==> exists e :: e in edges && SamePair(e, u, v)
    ensures OnlyLinks(adj, s1, s2, moves)
  {
    forall i, r | 0 <= i < |s1| && Adjacent(moves, i, r)
      ensures Linked(adj, s1, s2, Edge(i, r))
    {
      var e :| e in edges && SamePair(e, i, r);
    }
  }

  /** A target slot matched to guard slot `i` in a graph of links receives a guard that may move there. */
  lemma MatchedSlotLinked(adj: seq<seq<int>>, s1: seq<int>, s2: seq<int>, moves: seq<seq<int>>, i: int, j: int)
    requires Domination.InRange(s1, |adj|) && |s1| == |s2| && 0 <= i < |s1| && 0 <= j < |s1|
    requires OnlyLinks(adj, s1, s2, moves) && Adjacent(moves, i, |s1| + j)
    ensures Link(adj, s1[i], s2[j])
  {
    assert Linked(adj, s1, s2, Edge(i, |s1| + j));
  }

  /**
   * A matching vector of the move graph with no free target slot gives
   * every target slot its own guard.
   */
  lemma CoveringMatchingAssigns(adj: seq<seq<int>>, s1: seq<int>, s2: seq<int>, moves: seq<seq<int>>, m: seq<int>)
    requires Domination.InRange(s1, |adj|) && |s1| == |s2| && |m| == |moves| == |s1| + |s1|
    requires OnlyLinks(adj, s1, s2, moves)
    requires forall u :: |s1| <= u < |m| ==> m[u] == -1 || (0 <= m[u] < |s1| && u in moves[m[u]])
    requires forall u1, u2 :: |s1| <= u1 < u2 < |m| && m[u1] != -1 ==> m[u1] != m[u2]
    requires multiset(m[|s1|..])[-1] == 0
    ensures Assignment(adj, s1, s2, m[|s1|..])
  {
    var k := |s1|;
    var a := m[k..];
    forall j | 0 <= j < k
      ensures 0 <= a[j] < k && Link(adj, s1[a[j]], s2[j])
    {
      assert a[j] == m[k + j] && a[j] in multiset(a);
      MatchedSlotLinked(adj, s1, s2, moves, m[k + j], j);
    }
    forall j1, j2 | 0 <= j1 < j2 < |a| ensures a[j1] != a[j2] {
      assert a[j1] == m[k + j1] && a[j2] == m[k + j2];
    }
  }

  /**
   * Soundness of isGuardTransition: configurations of different sizes are
   * never joined, and when the test succeeds every target slot receives a
   * distinct guard that may move there.
   */
  lemma GuardTransitionSound(adj: seq<seq<int>>, s1: seq<int>, s2: seq<int>)
    requires |s1| == |s2| ==> Domination.InRange(s1, |adj|)
    ensures |s1| != |s2| ==> !GuardTransition(adj, s1, s2)
    ensures GuardTransition(adj, s1, s2) ==>
              Domination.InRange(s1, |adj|) && exists a :: Assignment(adj, s1, s2, a)
  {
    if GuardTransition(adj, s1, s2) {
      var k := |s1|;
      MoveGraphLinks(adj, s1, s2);
      var moves := Bipartite.InsertAll(k, k, EmptyAdj(k + k), TransitionEdges(adj, s1, s2, k)).value;
      PerfectMatchingAssigns(adj, s1, s2, moves);
    }
  }

  /** A matching of the move graph of size k, as Kuhn's algorithm returns it, is an assignment. */
  lemma PerfectMatchingAssigns(adj: seq<seq<int>>, s1: seq<int>, s2: seq<int>, moves: seq<seq<int>>)
    requires Domination.InRange(s1, |adj|) && |s1| == |s2| && |moves| == |s1| + |s1|
    requires Kuhn.LeftToRight(moves, |s1|) && OnlyLinks(adj, s1, s2, moves)
    requires Kuhn.MaxMatching(moves, |s1|).size == |s1|
    ensures Assignment(adj, s1, s2, Kuhn.MaxMatching(moves, |s1|).mate[|s1|..])
  {
    var k := |s1|;
    Kuhn.MaxMatchingValid(moves, k);
    var m := Kuhn.MaxMatching(moves, k).mate;
    assert multiset(m[k..])[-1] == 0;
    CoveringMatchingAssigns(adj, s1, s2, moves, m);
  }

  /** The move graph of two configurations of equal size is built, is directed left to right, and holds only links. */
  lemma MoveGraphLinks(adj: seq<seq<int>>, s1: seq<int>, s2: seq<int>)
    requires Domination.InRange(s1, |adj|) && |s1| == |s2|
    ensures Bipartite.InsertAll(|s1|, |s1|, EmptyAdj(|s1| + |s1|), TransitionEdges(adj, s1, s2, |s1|)).Success?
    ensures var moves := Bipartite.InsertAll(|s1|, |s1|, EmptyAdj(|s1| + |s1|), TransitionEdges(adj, s1, s2, |s1|)).value;
      |moves| == |s1| + |s1| && Kuhn.LeftToRight(moves, |s1|) && OnlyLinks(adj, s1, s2, moves)
  {
    var k := |s1|;
    var edges := TransitionEdges(adj, s1, s2, k);
    TransitionGraphBuilt(adj, s1, s2);
    EmptyAdjSimple(k + k);
    Bipartite.InsertAllSucceeds(k, k, EmptyAdj(k + k), edges);
    Bipartite.InsertAllAdjacent(k, k, EmptyAdj(k + k), edges);
    var moves := Bipartite.InsertAll(k, k, EmptyAdj(k + k), edges).value;
    TransitionEdgesLinked(adj, s1, s2);
    PairsOfLinks(adj, s1, s2, edges, moves);
    Bipartite.BipartitionLeftToRight(moves, k);
  }
  /** In a strictly increasing sequence every entry is at its own last position. */
  lemma LastIndexOfIncreasing(s: seq<int>, j: int)
    requires Domination.StrictlyIncreasing(s) && 0 <= j < |s|
    ensures LastIndex(s, s[j]) == j
  {
  }

  /** Lists holding exactly the pairs of the transition edges join slot `i` to target slot `j` when `Linked` says so. */
  lemma MoveAdjacencyAt(adj: seq<seq<int>>, s1: seq<int>, s2: seq<int>, edges: seq<Edge>, moves: seq<seq<int>>, i: int, j: int)
    requires Domination.InRange(s1, |adj|) && |s1| == |s2| && 0 <= i < |s1| && 0 <= j < |s1|
    requires forall e :: e in edges <==> Linked(adj, s1, s2, e) && e.v1 < |s1|
    requires forall u, v :: Adjacent(moves, u, v) <==> exists e :: e in edges && SamePair(e, u, v)
    ensures Adjacent(moves, i, |s1| + j) <==> Link(adj, s1[i], s2[j]) && LastIndex(s2, s2[j]) == j
  {
    var k := |s1|;
    var e := Edge(i, k + j);
    if Adjacent(moves, i, k + j) {
      var e' :| e' in edges && SamePair(e', i, k + j);
      assert Linked(adj, s1, s2, e') && e'.v1 < k;
      assert e' == e;
    }
    if Link(adj, s1[i], s2[j]) && LastIndex(s2, s2[j]) == j {
      assert Linked(adj, s1, s2, e);
      assert e in edges && SamePair(e, i, k + j);
    }
  }

  /**
   * The move graph `moves` joins slot `i` to target slot `|s1| + j` exactly
   * when the guard on `s1[i]` may move to `s2[j]` and `j` is the last
   * position of `s2[j]`.
   */
  ghost predicate JoinsLinkedSlots(adj: seq<seq<int>>, s1: seq<int>, s2: seq<int>, moves: seq<seq<int>>)
    requires Domination.InRange(s1, |adj|) && |s1| == |s2|
  {
    forall i, j {:trigger Link(adj, s1[i], s2[j])} :: 0 <= i < |s1| && 0 <= j < |s1| ==>
      (Adjacent(moves, i, |s1| + j) <==> Link(adj, s1[i], s2[j]) && LastIndex(s2, s2[j]) == j)
  }

  /** The move graph `moves` joins slot `i` to target slot `|s1| + j` exactly when the guard on `s1[i]` may move to `s2[j]`. */
  ghost predicate JoinsAllLinks(adj: seq<seq<int>>, s1: seq<int>, s2: seq<int>, moves: seq<seq<int>>)
    requires Domination.InRange(s1, |adj|) && |s1| == |s2|
  {
    forall i, j {:trigger Link(adj, s1[i], s2[j])} :: 0 <= i < |s1| && 0 <= j < |s1| ==>
      (Adjacent(moves, i, |s1| + j) <==> Link(adj, s1[i], s2[j]))
  }

  /** MoveAdjacencyAt for every pair of slots. */
  lemma MoveAdjacencyAll(adj: seq<seq<int>>, s1: seq<int>, s2: seq<int>, edges: seq<Edge>, moves: seq<seq<int>>)
    requires Domination.InRange(s1, |adj|) && |s1| == |s2|
    requires forall e :: e in edges <==> Linked(adj, s1, s2, e) && e.v1 < |s1|
    requires forall u, v :: Adjacent(moves, u, v) <==> exists e :: e in edges && SamePair(e, u, v)
    ensures JoinsLinkedSlots(adj, s1, s2, moves)
  {
    forall i, j | 0 <= i < |s1| && 0 <= j < |s1|
      ensures Adjacent(moves, i, |s1| + j) <==> Link(adj, s1[i], s2[j]) && LastIndex(s2, s2[j]) == j
    {
      MoveAdjacencyAt(adj, s1, s2, edges, moves, i, j);
    }
  }

  /** Without repeats in the second configuration, the last-position condition always holds. */
  lemma JoinsAllLinksOfIncreasing(adj: seq<seq<int>>, s1: seq<int>, s2: seq<int>, moves: seq<seq<int>>)
    requires Domination.InRange(s1, |adj|) && |s1| == |s2|
    requires JoinsLinkedSlots(adj, s1, s2, moves) && Domination.StrictlyIncreasing(s2)
    ensures JoinsAllLinks(adj, s1, s2, moves)
  {
    forall j | 0 <= j < |s2| ensures LastIndex(s2, s2[j]) == j {
      LastIndexOfIncreasing(s2, j);
    }
  }

  /**
   * The move graph exactly: slot `i` is joined to target slot `j` when the
   * guard on `s1[i]` may move to `s2[j]` and `j` is the last position of
   * `s2[j]`; for a configuration without repeats the second condition holds
   * everywhere.
   */
  lemma MoveGraphExact(adj: seq<seq<int>>, s1: seq<int>, s2: seq<int>, moves: seq<seq<int>>)
    requires Domination.InRange(s1, |adj|) && |s1| == |s2|
    requires Bipartite.InsertAll(|s1|, |s1|, EmptyAdj(|s1| + |s1|), TransitionEdges(adj, s1, s2, |s1|)) == Success(moves)
    ensures JoinsLinkedSlots(adj, s1, s2, moves)
    ensures Domination.StrictlyIncreasing(s2) ==> JoinsAllLinks(adj, s1, s2, moves)
  {
    Bipartite.InsertAllFromEmpty(|s1|, |s1|, TransitionEdges(adj, s1, s2, |s1|), moves);
    TransitionEdgesExact(adj, s1, s2, |s1|);
    MoveAdjacencyAll(adj, s1, s2, TransitionEdges(adj, s1, s2, |s1|), moves);
    if Domination.StrictlyIncreasing(s2) {
      JoinsAllLinksOfIncreasing(adj, s1, s2, moves);
    }
  }
}
