/**
 * ConfigurationGraph: one vertex per dominating configuration, the same
 * validated adjacency-list edge operations as Graph, and
 * findSafeDominatingSets, the in-place fixed point over the `is_safe` flags.
 */
module Configurations {
  import opened Common
  import opened AdjacencyLists
  import opened Marks
  import opened SafeConfigurations

  /** Every id listed in a set is a valid index of a coverage buffer of length `bound`. */
  predicate IdsBelow(sets: seq<seq<int>>, bound: int) {
    forall i, t :: 0 <= i < |sets| && 0 <= t < |sets[i]| ==> 0 <= sets[i][t] < bound
  }

  /**
   * The coverage test of one set: a fresh buffer of `bound` flags receives
   * the ids of set `i` and of every other set flagged safe, and then every
   * flag must be set.
   */
  method CoverageTest(bound: nat, sets: seq<seq<int>>, isSafe: array<bool>, i: int) returns (covered: bool)
    requires IdsBelow(sets, bound) && isSafe.Length == |sets| && 0 <= i < |sets|
    ensures covered <==> Defended(bound, sets, isSafe[..], i)
  {
    var defended := new bool[bound](_ => false);
    MarkAll(defended, sets[i]);
    for j := 0 to |sets|
      invariant forall w :: 0 <= w < bound ==>
        (defended[w] <==> w in sets[i] || exists j' :: 0 <= j' < j && j' != i && isSafe[j'] && w in sets[j'])
    {
      if i != j && isSafe[j] {
        MarkAll(defended, sets[j]);
      }
    }
    covered := AllMarked(defended);
    forall w | 0 <= w < bound
      ensures defended[w] <==>
        w in sets[i] || exists j :: 0 <= j < |sets| && j != i && isSafe[..][j] && w in sets[j]
    {
      if exists j :: 0 <= j < |sets| && j != i && isSafe[..][j] && w in sets[j] {
        var j :| 0 <= j < |sets| && j != i && isSafe[..][j] && w in sets[j];
        assert isSafe[j];
      }
    }
  }

  /**
   * One pass of findSafeDominatingSets: every set still flagged safe is
   * tested in index order, and a set that fails is flagged unsafe at once.
   */
  method SafetyPass(bound: nat, sets: seq<seq<int>>, isSafe: array<bool>) returns (anyChanges: bool)
    requires IdsBelow(sets, bound) && isSafe.Length == |sets|
    modifies isSafe
    ensures PassResult(isSafe[..], anyChanges) == PassFrom(bound, sets, old(isSafe[..]), 0)
  {
    anyChanges := false;
    ghost var pass := PassFrom(bound, sets, isSafe[..], 0);
    for i := 0 to |sets|
      invariant pass.safe == PassFrom(bound, sets, isSafe[..], i).safe
      invariant pass.changed == (anyChanges || PassFrom(bound, sets, isSafe[..], i).changed)
    {
      if isSafe[i] {
        var covered := CoverageTest(bound, sets, isSafe, i);
        if !covered {
          isSafe[i] := false;
          anyChanges := true;
        }
      }
    }
  }

  /**
   * The body of findSafeDominatingSets for a coverage buffer of length
   * `bound`: every set starts safe, and passes that clear the flags of
   * undefended sets repeat until a pass clears none.
   */
  method SafeFixedPoint(bound: nat, sets: seq<seq<int>>) returns (safe: seq<bool>)
    requires IdsBelow(sets, bound)
    ensures safe == SafeSets(bound, sets)
  {
    var isSafe := new bool[|sets|](_ => true);
    assert isSafe[..] == AllSafe(|sets|);
    var anyChanges := true;
    while anyChanges
      invariant (if anyChanges then Iterate(bound, sets, isSafe[..]) else isSafe[..]) == SafeSets(bound, sets)
      decreases Count(isSafe[..]) + if anyChanges then 1 else 0
    {
      ghost var before := isSafe[..];
      anyChanges := SafetyPass(bound, sets, isSafe);
      CountBelow(isSafe[..], before);
    }
    safe := isSafe[..];
  }

  class ConfigurationGraph {
    const numVertices: nat                 // the number of configurations
    const originalNumVertices: int         // the number of vertices of the graph they come from
    const configurations: seq<seq<int>>
    var adj: seq<seq<int>>
    var numEdges: int

    /** The class invariant: a simple graph whose edge count is half the total degree. */
    ghost predicate Valid()
      reads this
    {
      |adj| == numVertices && Simple(adj) && 2 * numEdges == TotalDegree(adj)
    }

    /** ConfigurationGraph(n, original, configurations) for a vertex count that passed the sign check. */
    constructor(numVertices: nat, originalNumVertices: int, configurations: seq<seq<int>>)
      ensures this.numVertices == numVertices && this.originalNumVertices == originalNumVertices
      ensures this.configurations == configurations
      ensures adj == EmptyAdj(numVertices) && numEdges == 0 && Valid()
    {
      this.numVertices := numVertices;
      this.originalNumVertices := originalNumVertices;
      this.configurations := configurations;
      adj, numEdges := EmptyAdj(numVertices), 0;
      new;
      EmptyAdjSimple(numVertices);
    }

    /** The constructor refuses a negative number of configurations. */
    static method Create(numVertices: int, originalNumVertices: int, configurations: seq<seq<int>>)
      returns (r: Result<ConfigurationGraph>)
      ensures numVertices < 0 <==> r == Failure(InvalidVertexCount(numVertices))
      ensures 0 <= numVertices ==> r.Success?
      ensures r.Success? ==> fresh(r.value) && r.value.Valid() && r.value.numEdges == 0
      ensures r.Success? ==> r.value.numVertices == numVertices && r.value.originalNumVertices == originalNumVertices
      ensures r.Success? ==> r.value.configurations == configurations
      ensures r.Success? ==> forall u, v :: !Adjacent(r.value.adj, u, v)
    {
      if numVertices < 0 {
        return Failure(InvalidVertexCount(numVertices));
      }
      var g := new ConfigurationGraph(numVertices, originalNumVertices, configurations);
      return Success(g);
    }

    /** hasEdge: validation, then a search of `e.v1`'s list for `e.v2`. */
    method HasEdge(e: Edge) returns (r: Result<bool>)
      requires Valid()
      ensures r.Success? <==> ValidateEdge(numVertices, e) == Pass
      ensures r.Success? ==> (r.value <==> Adjacent(adj, e.v1, e.v2))
      ensures r.Failure? ==> r.error == EdgeOperationFailed(HasEdgeOp, e, ValidateEdge(numVertices, e).error)
    {
      var check := ValidateEdge(numVertices, e);
      if check.Fail? {
        return Failure(EdgeOperationFailed(HasEdgeOp, e, check.error));
      }
      var found := Contains(adj[e.v1], e.v2);
      return Success(found);
    }

    /**
     * insertEdge: after validation the pair is added to both lists and
     * counted, unless it is a loop or already present.
     */
    method InsertEdge(e: Edge) returns (o: Outcome)
      requires Valid()
      modifies this
      ensures Valid()
      ensures o == Pass <==> ValidateEdge(numVertices, e) == Pass
      ensures o.Fail? ==> o.error == EdgeOperationFailed(InsertEdgeOp, e, ValidateEdge(numVertices, e).error)
      ensures o.Fail? ==> adj == old(adj) && numEdges == old(numEdges)
      ensures o == Pass ==> adj == InsertAdj(old(adj), e)
      ensures o == Pass ==>
                numEdges == old(numEdges) + if e.v1 != e.v2 && !Adjacent(old(adj), e.v1, e.v2) then 1 else 0
      ensures o == Pass ==> forall u, v :: Adjacent(adj, u, v) <==>
                Adjacent(old(adj), u, v) || (e.v1 != e.v2 && SamePair(e, u, v))
    {
      var check := ValidateEdge(numVertices, e);
      if check.Fail? {
        return Fail(EdgeOperationFailed(InsertEdgeOp, e, check.error));
      }
      InsertAdjEffect(adj, e);
      var present := HasEdge(e);
      if !present.value && e.v1 != e.v2 {
        adj := adj[e.v1 := [e.v2] + adj[e.v1]][e.v2 := [e.v1] + adj[e.v2]];
        numEdges := numEdges + 1;
      }
      return Pass;
    }

    /**
     * removeEdge: after validation, erase `e.v2` from `e.v1`'s list; only
     * when it was there, erase `e.v1` from `e.v2`'s list and uncount the edge.
     */
    method RemoveEdge(e: Edge) returns (o: Outcome)
      requires Valid()
      modifies this
      ensures Valid()
      ensures o == Pass <==> ValidateEdge(numVertices, e) == Pass
      ensures o.Fail? ==> o.error == EdgeOperationFailed(RemoveEdgeOp, e, ValidateEdge(numVertices, e).error)
      ensures o.Fail? ==> adj == old(adj) && numEdges == old(numEdges)
      ensures o == Pass ==> adj == RemoveAdj(old(adj), e)
      ensures o == Pass ==> numEdges == old(numEdges) - if Adjacent(old(adj), e.v1, e.v2) then 1 else 0
      ensures o == Pass ==> forall u, v :: Adjacent(adj, u, v) <==> Adjacent(old(adj), u, v) && !SamePair(e, u, v)
    {
      var check := ValidateEdge(numVertices, e);
      if check.Fail? {
        return Fail(EdgeOperationFailed(RemoveEdgeOp, e, check.error));
      }
      RemoveAdjEffect(adj, e);
      ghost var target := RemoveAdj(adj, e);
      var first, hadEdge := EraseFirst(adj[e.v1], e.v2);
      if hadEdge {
        adj := adj[e.v1 := first];
        var second, _ := EraseFirst(adj[e.v2], e.v1);
        adj := adj[e.v2 := second];
        numEdges := numEdges - 1;
      }
      assert adj == target;
      return Pass;
    }

    /**
     * findSafeDominatingSets as written: the coverage buffer has one flag per
     * configuration (numVertices), and the ids of the sets index it.
     */
    method FindSafeDominatingSets(sets: seq<seq<int>>) returns (isSafe: seq<bool>)
      requires IdsBelow(sets, numVertices)
      ensures isSafe == SafeSets(numVertices, sets)
      ensures |isSafe| == |sets| && SelfDefending(numVertices, sets, isSafe)
      ensures forall s :: |s| == |sets| && SelfDefending(numVertices, sets, s) ==> Below(s, isSafe)
    {
      isSafe := SafeFixedPoint(numVertices, sets);
      SafeSetsGreatest(numVertices, sets);
    }

    /**
     * findSafeDominatingSets with the coverage buffer sized by the number of
     * vertices of the original graph, which the ids in the sets name.
     */
    method SafeDominatingSets(sets: seq<seq<int>>) returns (isSafe: seq<bool>)
      requires 0 <= originalNumVertices && IdsBelow(sets, originalNumVertices)
      ensures isSafe == SafeSets(originalNumVertices, sets)
      ensures |isSafe| == |sets| && SelfDefending(originalNumVertices, sets, isSafe)
      ensures forall s :: |s| == |sets| && SelfDefending(originalNumVertices, sets, s) ==> Below(s, isSafe)
    {
      isSafe := SafeFixedPoint(originalNumVertices, sets);
      SafeSetsGreatest(originalNumVertices, sets);
    }
  }
}
