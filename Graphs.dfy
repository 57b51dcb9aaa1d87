/**
 * Graph: a simple undirected graph on vertices 0 .. n-1 held as adjacency
 * lists, with the validated edge operations, the domination test, the
 * enumeration of dominating sets of size k, the guard-transition test between
 * two of them and the configuration graph that joins the feasible moves.
 */
module Graphs {
  import opened Common
  import opened AdjacencyLists
  import opened Marks
  import opened Domination
  import GuardMoves
  import Bipartite
  import Kuhn
  import Configurations

  /** Every configuration lists vertices of the graph. */
  predicate AllInRange(configs: seq<seq<int>>, n: int) {
    forall i :: 0 <= i < |configs| ==> InRange(configs[i], n)
  }

  /**
   * Configurations `a` and `b` are joined in the configuration graph: they
   * are distinct and the guards can move from the lower-numbered one to the
   * other.
   */
  predicate Joined(adj: seq<seq<int>>, configs: seq<seq<int>>, a: int, b: int)
    requires AllInRange(configs, |adj|)
  {
    0 <= a < |configs| && 0 <= b < |configs| && a != b &&
    if a < b then GuardMoves.GuardTransition(adj, configs[a], configs[b])
    else GuardMoves.GuardTransition(adj, configs[b], configs[a])
  }

  /** Pair (a, b) comes before position (i, j) of the nested loop over configuration pairs. */
  predicate Before(a: int, b: int, i: int, j: int) {
    a < i || b < i || (a == i && b < j) || (b == i && a < j)
  }

  /** The configuration graph `g` holds exactly the joined pairs visited before position (i, j). */
  ghost predicate JoinedUpTo(adj: seq<seq<int>>, configs: seq<seq<int>>, g: seq<seq<int>>, i: int, j: int)
    requires AllInRange(configs, |adj|)
  {
    forall a, b :: Adjacent(g, a, b) <==> Joined(adj, configs, a, b) && Before(a, b, i, j)
  }

  lemma JoinedUpToStart(adj: seq<seq<int>>, configs: seq<seq<int>>, g: seq<seq<int>>)
    requires AllInRange(configs, |adj|) && g == EmptyAdj(|configs|)
    ensures JoinedUpTo(adj, configs, g, 0, 0)
  {
  }

  /** The pair (i, i) is never joined, so entering row i changes nothing. */
  lemma JoinedUpToEnterRow(adj: seq<seq<int>>, configs: seq<seq<int>>, g: seq<seq<int>>, i: int)
    requires AllInRange(configs, |adj|) && JoinedUpTo(adj, configs, g, i, i)
    ensures JoinedUpTo(adj, configs, g, i, i + 1)
  {
  }

  /** At the end of row i every joined pair of row i has been visited. */
  lemma JoinedUpToLeaveRow(adj: seq<seq<int>>, configs: seq<seq<int>>, g: seq<seq<int>>, i: int)
    requires AllInRange(configs, |adj|) && JoinedUpTo(adj, configs, g, i, |configs|)
    ensures JoinedUpTo(adj, configs, g, i + 1, i + 1)
  {
  }

  /** One step of the inner loop: the pair (i, j) is added exactly when it is joined. */
  lemma JoinedUpToStep(adj: seq<seq<int>>, configs: seq<seq<int>>, before: seq<seq<int>>, after: seq<seq<int>>, i: int, j: int)
    requires AllInRange(configs, |adj|) && 0 <= i < j < |configs|
    requires JoinedUpTo(adj, configs, before, i, j)
    requires forall u, v :: Adjacent(after, u, v) <==>
               Adjacent(before, u, v) || (Joined(adj, configs, i, j) && SamePair(Edge(i, j), u, v))
    ensures JoinedUpTo(adj, configs, after, i, j + 1)
  {
    forall a, b
      ensures Adjacent(after, a, b) <==> Joined(adj, configs, a, b) && Before(a, b, i, j + 1)
    {
      if SamePair(Edge(i, j), a, b) {
        assert Joined(adj, configs, a, b) == Joined(adj, configs, i, j);
      } else {
        assert Before(a, b, i, j + 1) == Before(a, b, i, j);
        assert Adjacent(after, a, b) == Adjacent(before, a, b);
      }
    }
  }

  class Graph {
    const numVertices: nat
    var adj: seq<seq<int>>
    var numEdges: int

    /** The class invariant: a simple graph whose edge count is half the total degree. */
    ghost predicate Valid()
      reads this
    {
      |adj| == numVertices && Simple(adj) && 2 * numEdges == TotalDegree(adj)
    }

    /** Graph(n) for a vertex count that passed the sign check: n vertices, no edges. */
    constructor(numVertices: nat)
      ensures this.numVertices == numVertices
      ensures adj == EmptyAdj(numVertices) && numEdges == 0 && Valid()
    {
      this.numVertices := numVertices;
      adj, numEdges := EmptyAdj(numVertices), 0;
      new;
      EmptyAdjSimple(numVertices);
    }

    /** Graph(n): a negative vertex count is refused. */
    static method Create(numVertices: int) returns (r: Result<Graph>)
      ensures numVertices < 0 <==> r == Failure(InvalidVertexCount(numVertices))
      ensures 0 <= numVertices ==> r.Success?
      ensures r.Success? ==> fresh(r.value) && r.value.Valid() && r.value.numEdges == 0
      ensures r.Success? ==> r.value.numVertices == numVertices
      ensures r.Success? ==> forall u, v :: !Adjacent(r.value.adj, u, v)
    {
      if numVertices < 0 {
        return Failure(InvalidVertexCount(numVertices));
      }
      var g := new Graph(numVertices);
      return Success(g);
    }

    /** hasEdge: validation, then a search of `e.v1`'s list for `e.v2`. */
    method HasEdge(e: Edge) returns (r: Result<bool>)
      requires Valid()
      ensures r.Success? <==> ValidateEdge(numVertices, e) == Pass
      ensures r.Success? ==> (r.value <==> Adjacent(adj, e.v1, e.v2))
      ensures r.Failure? ==> r.error == EdgeOperationFailed(HasEdgeOp, e, ValidateEdge(numVertices, e).error)
    {
      var check := ValidateEdge(numVertices, e);
      if check.Fail? {
        return Failure(EdgeOperationFailed(HasEdgeOp, e, check.error));
      }
      var found := Contains(adj[e.v1], e.v2);
      return Success(found);
    }

    /**
     * insertEdge: after validation the pair is added to both lists and
     * counted, unless it is a loop or already present.
     */
    method InsertEdge(e: Edge) returns (o: Outcome)
      requires Valid()
      modifies this
      ensures Valid()
      ensures o == Pass <==> ValidateEdge(numVertices, e) == Pass
      ensures o.Fail? ==> o.error == EdgeOperationFailed(InsertEdgeOp, e, ValidateEdge(numVertices, e).error)
      ensures o.Fail? ==> adj == old(adj) && numEdges == old(numEdges)
      ensures o == Pass ==> adj == InsertAdj(old(adj), e)
      ensures o == Pass ==>
                numEdges == old(numEdges) + if e.v1 != e.v2 && !Adjacent(old(adj), e.v1, e.v2) then 1 else 0
      ensures o == Pass ==> forall u, v :: Adjacent(adj, u, v) <==>
                Adjacent(old(adj), u, v) || (e.v1 != e.v2 && SamePair(e, u, v))
    {
      var check := ValidateEdge(numVertices, e);
      if check.Fail? {
        return Fail(EdgeOperationFailed(InsertEdgeOp, e, check.error));
      }
      InsertAdjEffect(adj, e);
      var present := HasEdge(e);
      if !present.value && e.v1 != e.v2 {
        adj := adj[e.v1 := [e.v2] + adj[e.v1]][e.v2 := [e.v1] + adj[e.v2]];
        numEdges := numEdges + 1;
      }
      return Pass;
    }

    /**
     * removeEdge: after validation, erase `e.v2` from `e.v1`'s list; only
     * when it was there, erase `e.v1` from `e.v2`'s list and uncount the edge.
     */
    method RemoveEdge(e: Edge) returns (o: Outcome)
      requires Valid()
      modifies this
      ensures Valid()
      ensures o == Pass <==> ValidateEdge(numVertices, e) == Pass
      ensures o.Fail? ==> o.error == EdgeOperationFailed(RemoveEdgeOp, e, ValidateEdge(numVertices, e).error)
      ensures o.Fail? ==> adj == old(adj) && numEdges == old(numEdges)
      ensures o == Pass ==> adj == RemoveAdj(old(adj), e)
      ensures o == Pass ==> numEdges == old(numEdges) - if Adjacent(old(adj), e.v1, e.v2) then 1 else 0
      ensures o == Pass ==> forall u, v :: Adjacent(adj, u, v) <==> Adjacent(old(adj), u, v) && !SamePair(e, u, v)
    {
      var check := ValidateEdge(numVertices, e);
      if check.Fail? {
        return Fail(EdgeOperationFailed(RemoveEdgeOp, e, check.error));
      }
      RemoveAdjEffect(adj, e);
      ghost var target := RemoveAdj(adj, e);
      var first, hadEdge := EraseFirst(adj[e.v1], e.v2);
      if hadEdge {
        adj := adj[e.v1 := first];
        var second, _ := EraseFirst(adj[e.v2], e.v1);
        adj := adj[e.v2 := second];
        numEdges := numEdges - 1;
      }
      assert adj == target;
      return Pass;
    }

    /**
     * isDominatingSet: mark every member and every neighbour of a member,
     * then check that every vertex is marked.
     */
    method IsDominatingSet(s: seq<int>) returns (r: bool)
      requires Valid() && InRange(s, numVertices)
      ensures r <==> Dominates(adj, s)
    {
      var isDominated := new bool[numVertices](_ => false);
      for i := 0 to |s|
        invariant forall w :: 0 <= w < numVertices ==> (isDominated[w] <==> DominatedBy(adj, s[..i], w))
      {
        var v := s[i];
        isDominated[v] := true;
        forall t | 0 <= t < |adj[v]| ensures 0 <= adj[v][t] < numVertices {
          assert Adjacent(adj, v, adj[v][t]);
        }
        MarkAll(isDominated, adj[v]);
        forall w | 0 <= w < numVertices
          ensures isDominated[w] <==> DominatedBy(adj, s[..i + 1], w)
        {
          DominatedByExtend(adj, s, i, w);
        }
      }
      assert s[..|s|] == s;
      assert forall w :: 0 <= w < numVertices ==> (isDominated[w] <==> DominatedBy(adj, s, w));
      r := AllMarked(isDominated);
      if r {
        forall w | 0 <= w < |adj| ensures DominatedBy(adj, s, w) {
          assert isDominated[w];
        }
      } else {
        var w :| 0 <= w < numVertices && !isDominated[w];
        assert !DominatedBy(adj, s, w);
      }
    }

    /**
     * exploreCombinations(start, k, current, found): the backtracking
     * enumeration. The current set is pushed and popped in balance, so it is
     * handed back unchanged, and `found` is extended by the sets of Explore.
     */
    method ExploreCombinations(start: int, k: int, current: seq<int>, found: seq<seq<int>>)
      returns (current': seq<int>, found': seq<seq<int>>)
      requires Valid() && 0 <= start && InRange(current, numVertices)
      ensures current' == current
      ensures found' == found + Explore(adj, start, k, current)
      decreases numVertices - start
    {
      if |current| == k {
        var dominates := IsDominatingSet(current);
        found' := if dominates then found + [current] else found;
        return current, found';
      }
      current', found' := current, found;
      var v := start;
      while v < numVertices
        invariant start <= v
        invariant current' == current
        invariant found' + ExploreFrom(adj, v, k, current) ==
                  found + ExploreFrom(adj, start, k, current)
      {
        ghost var rest := ExploreFrom(adj, v + 1, k, current);
        assert ExploreFrom(adj, v, k, current) == Explore(adj, v + 1, k, current + [v]) + rest;
        ghost var before := found';
        current' := current' + [v];
        current', found' := ExploreCombinations(v + 1, k, current', found');
        assert found' + rest == before + ExploreFrom(adj, v, k, current);
        assert current' == current + [v] && (current + [v])[..|current|] == current;
        current' := current'[..|current'| - 1];
        v := v + 1;
      }
      assert ExploreFrom(adj, v, k, current) == [];
    }

    /**
     * generateDominatingSets(k): exactly the strictly increasing dominating
     * sets of size k, each once, in lexicographic order.
     */
    method GenerateDominatingSets(k: int) returns (sets: seq<seq<int>>)
      requires Valid()
      ensures sets == DominatingSets(adj, k)
      ensures forall s :: s in sets <==> Candidate(adj, k, s)
      ensures LexSorted(sets)
    {
      var current: seq<int> := [];
      current, sets := ExploreCombinations(0, k, current, []);
      DominatingSetsExact(adj, k);
    }

    /** The table `order_in_dominating_set_2`: the last position of each vertex in `s2`, or -1. */
    method PositionTable(s2: seq<int>) returns (orderIn: array<int>)
      requires InRange(s2, numVertices)
      ensures fresh(orderIn) && orderIn.Length == numVertices
      ensures forall u :: 0 <= u < numVertices ==> orderIn[u] == GuardMoves.LastIndex(s2, u)
    {
      orderIn := new int[numVertices](_ => -1);
      var order := -1;
      for t := 0 to |s2|
        invariant order == t - 1
        invariant forall u :: 0 <= u < numVertices ==> orderIn[u] == GuardMoves.LastIndex(s2[..t], u)
      {
        order := order + 1;
        orderIn[s2[t]] := order;
        assert s2[..t + 1][..t] == s2[..t];
      }
      assert s2[..|s2|] == s2;
    }

    /** The neighbour loop of guard slot `v`: one edge per neighbour that occurs in `s2`. */
    method NeighbourEdges(s1: seq<int>, s2: seq<int>, orderIn: array<int>, v: int) returns (row: seq<Edge>)
      requires Valid() && InRange(s1, numVertices) && 0 <= v < |s1| && orderIn.Length == numVertices
      requires forall u :: 0 <= u < numVertices ==> orderIn[u] == GuardMoves.LastIndex(s2, u)
      ensures row == GuardMoves.RowEdges(s2, |s1|, v, adj[s1[v]])
    {
      var k := |s1|;
      var nbrs := adj[s1[v]];
      row := [];
      for j := 0 to |nbrs|
        invariant row == GuardMoves.RowEdges(s2, k, v, nbrs[..j])
      {
        var u := nbrs[j];
        assert Adjacent(adj, s1[v], u);
        if orderIn[u] >= 0 {
          row := row + [Edge(v, k + orderIn[u])];
        }
        assert nbrs[..j + 1][..j] == nbrs[..j];
      }
      assert nbrs[..|nbrs|] == nbrs;
    }

    /** The edges of guard slot `v`: one per neighbour that occurs in `s2`, then one for its own vertex if it does. */
    method GuardSlotEdges(s1: seq<int>, s2: seq<int>, orderIn: array<int>, v: int) returns (slot: seq<Edge>)
      requires Valid() && InRange(s1, numVertices) && 0 <= v < |s1| && orderIn.Length == numVertices
      requires forall u :: 0 <= u < numVertices ==> orderIn[u] == GuardMoves.LastIndex(s2, u)
      ensures slot == GuardMoves.SlotEdges(adj, s1, s2, v)
    {
      slot := NeighbourEdges(s1, s2, orderIn, v);
      if orderIn[s1[v]] >= 0 {
        slot := slot + [Edge(v, |s1| + orderIn[s1[v]])];
      }
    }

    /** The edge list of the k-by-k move graph, slot by slot. */
    method MoveEdges(s1: seq<int>, s2: seq<int>, orderIn: array<int>) returns (edges: seq<Edge>)
      requires Valid() && InRange(s1, numVertices) && orderIn.Length == numVertices
      requires forall u :: 0 <= u < numVertices ==> orderIn[u] == GuardMoves.LastIndex(s2, u)
      ensures edges == GuardMoves.TransitionEdges(adj, s1, s2, |s1|)
    {
      edges := [];
      for v := 0 to |s1|
        invariant edges == GuardMoves.TransitionEdges(adj, s1, s2, v)
      {
        var slot := GuardSlotEdges(s1, s2, orderIn, v);
        edges := edges + slot;
      }
    }

    /**
     * isGuardTransition(s1, s2): unequal sizes are refused; otherwise the
     * position table of `s2` and the move edges are built, and the k-by-k
     * bipartite graph must have a matching of size k.
     */
    method IsGuardTransition(s1: seq<int>, s2: seq<int>) returns (r: bool)
      requires Valid() && (|s1| == |s2| ==> InRange(s1, numVertices) && InRange(s2, numVertices))
      ensures r == GuardMoves.GuardTransition(adj, s1, s2)
    {
      if |s1| != |s2| {
        return false;
      }
      var k := |s1|;
      var orderIn := PositionTable(s2);
      var edges := MoveEdges(s1, s2, orderIn);
      ghost var moves := Bipartite.InsertAll(k, k, EmptyAdj(k + k), edges);
      var built := Bipartite.BipartiteGraph.Create(k, k, edges);
      if built.Failure? {
        assert moves.Failure?;
        return false;
      }
      assert moves.Success? && built.value.adj == moves.value;
      var size, mate := built.value.MaxMatching();
      assert size == Kuhn.MaxMatching(moves.value, k).size;
      return size == k;
    }

    /** The body of the inner loop of generateConfigurationGraph: join (i, j) when the guards can move. */
    method JoinPair(cg: Configurations.ConfigurationGraph, configs: seq<seq<int>>, i: int, j: int)
      requires Valid() && AllInRange(configs, |adj|) && 0 <= i < j < |configs|
      requires cg.Valid() && cg.numVertices == |configs|
      requires JoinedUpTo(adj, configs, cg.adj, i, j)
      modifies cg
      ensures cg.Valid() && JoinedUpTo(adj, configs, cg.adj, i, j + 1)
    {
      ghost var before := cg.adj;
      var move := IsGuardTransition(configs[i], configs[j]);
      if move {
        var _ := cg.InsertEdge(Edge(i, j));
      }
      JoinedUpToStep(adj, configs, before, cg.adj, i, j);
    }

    /**
     * generateConfigurationGraph(k): one vertex per dominating set of size k,
     * and an edge between configurations i < j exactly when the guards can
     * move from configuration i to configuration j.
     */
    method GenerateConfigurationGraph(k: int) returns (cg: Configurations.ConfigurationGraph)
      requires Valid()
      ensures fresh(cg) && cg.Valid()
      ensures cg.configurations == DominatingSets(adj, k)
      ensures cg.numVertices == |DominatingSets(adj, k)| && cg.originalNumVertices == numVertices
      ensures AllInRange(cg.configurations, |adj|)
      ensures forall a, b :: Adjacent(cg.adj, a, b) <==> Joined(adj, cg.configurations, a, b)
    {
      var configs := GenerateDominatingSets(k);
      forall i | 0 <= i < |configs| ensures InRange(configs[i], numVertices) {
        assert configs[i] in configs;
      }
      cg := new Configurations.ConfigurationGraph(|configs|, numVertices, configs);
      JoinedUpToStart(adj, configs, cg.adj);
      for i := 0 to |configs|
        invariant cg.Valid() && cg.numVertices == |configs| && cg.configurations == configs
        invariant cg.originalNumVertices == numVertices
        invariant JoinedUpTo(adj, configs, cg.adj, i, i)
      {
        JoinedUpToEnterRow(adj, configs, cg.adj, i);
        for j := i + 1 to |configs|
          invariant cg.Valid() && cg.numVertices == |configs| && cg.configurations == configs
          invariant cg.originalNumVertices == numVertices
          invariant JoinedUpTo(adj, configs, cg.adj, i, j)
        {
          JoinPair(cg, configs, i, j);
        }
        JoinedUpToLeaveRow(adj, configs, cg.adj, i);
      }
    }
  }
}
