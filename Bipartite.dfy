/**
 * BipartiteGraph: a graph on a left side 0 .. p-1 and a right side
 * p .. p+q-1 whose edges must cross the sides, built from an edge list, with
 * Kuhn's augmenting-path maximum matching run in place on a `match` array.
 */
module Bipartite {
  import opened Common
  import opened AdjacencyLists
  import Kuhn

  /** Every stored edge joins a left vertex to a right vertex. */
  ghost predicate Bipartition(adj: seq<seq<int>>, p: int) {
    forall u, v :: Adjacent(adj, u, v) ==> (u < p <==> p <= v)
  }

  /** The edge joins the two sides: its smaller endpoint is left, its larger one right. */
  predicate Crosses(p: int, q: int, e: Edge) {
    if e.v1 < e.v2 then 0 <= e.v1 < p <= e.v2 < p + q
    else 0 <= e.v2 < p <= e.v1 < p + q
  }

  function ValidateFirstSet(p: int, v: int): Outcome {
    if v < 0 || v >= p then Fail(InvalidFirstSetVertex(v)) else Pass
  }

  function ValidateSecondSet(p: int, q: int, v: int): Outcome {
    if v < p || v >= p + q then Fail(InvalidSecondSetVertex(v)) else Pass
  }

  /**
   * validateEdge: a loop is refused first; otherwise the smaller endpoint
   * must be a left vertex and then the larger one a right vertex.
   */
  function ValidateCrossing(p: int, q: int, e: Edge): (o: Outcome)
    ensures o == Pass <==> e.v1 != e.v2 && Crosses(p, q, e)
    ensures e.v1 == e.v2 ==> o == Fail(InvalidEdge(e))
    ensures e.v1 != e.v2 && !(0 <= Min(e) < p) ==> o == Fail(InvalidFirstSetVertex(Min(e)))
    ensures e.v1 != e.v2 && 0 <= Min(e) < p && !(p <= Max(e) < p + q) ==> o == Fail(InvalidSecondSetVertex(Max(e)))
  {
    if e.v1 == e.v2 then Fail(InvalidEdge(e))
    else if e.v1 < e.v2 then
      (if ValidateFirstSet(p, e.v1).Fail? then ValidateFirstSet(p, e.v1) else ValidateSecondSet(p, q, e.v2))
    else
      (if ValidateFirstSet(p, e.v2).Fail? then ValidateFirstSet(p, e.v2) else ValidateSecondSet(p, q, e.v1))
  }

  function Min(e: Edge): int { if e.v1 < e.v2 then e.v1 else e.v2 }
  function Max(e: Edge): int { if e.v1 < e.v2 then e.v2 else e.v1 }

  /** A simple two-sided graph's left vertices have only right neighbours. */
  lemma BipartitionLeftToRight(adj: seq<seq<int>>, p: int)
    requires Simple(adj) && Bipartition(adj, p) && 0 <= p <= |adj|
    ensures Kuhn.LeftToRight(adj, p)
  {
    forall x, i | 0 <= x < p && 0 <= i < |adj[x]|
      ensures p <= adj[x][i] < |adj|
    {
      assert Adjacent(adj, x, adj[x][i]);
    }
  }

  /** Inserting a crossing edge keeps the graph two-sided. */
  lemma BipartitionInsert(adj: seq<seq<int>>, p: int, q: int, e: Edge)
    requires Simple(adj) && Bipartition(adj, p) && |adj| == p + q
    requires ValidateCrossing(p, q, e) == Pass
    ensures Bipartition(InsertAdj(adj, e), p)
  {
    InsertAdjEffect(adj, e);
  }

  /**
   * The constructor's `for (auto &e : edges) insertEdge(e);` loop, from the
   * lists `adj`: each edge in turn is validated and inserted, and the first
   * invalid edge stops the construction with insertEdge's nested error.
   */
  function InsertAll(p: nat, q: nat, adj: seq<seq<int>>, edges: seq<Edge>): (r: Result<seq<seq<int>>>)
    requires |adj| == p + q && Simple(adj) && Bipartition(adj, p)
    ensures r.Success? ==> |r.value| == p + q && Simple(r.value) && Bipartition(r.value, p)
    decreases |edges|
  {
    if edges == [] then Success(adj)
    else
      var e := edges[0];
      match ValidateCrossing(p, q, e)
      case Fail(cause) => Failure(EdgeOperationFailed(InsertEdgeOp, e, cause))
      case Pass =>
        InsertAdjEffect(adj, e);
        BipartitionInsert(adj, p, q, e);
        InsertAll(p, q, InsertAdj(adj, e), edges[1..])
  }

  /** `edges[i]` is the first edge that does not cross the sides. */
  predicate FirstInvalid(p: int, q: int, edges: seq<Edge>, i: int) {
    0 <= i < |edges| && ValidateCrossing(p, q, edges[i]).Fail? &&
    forall j :: 0 <= j < i ==> ValidateCrossing(p, q, edges[j]) == Pass
  }

  /** Every edge of the list passes validateEdge. */
  predicate AllCross(p: int, q: int, edges: seq<Edge>) {
    forall i :: 0 <= i < |edges| ==> ValidateCrossing(p, q, edges[i]) == Pass
  }

  /** The construction succeeds exactly when every edge crosses the sides. */
  lemma {:induction false} InsertAllSucceeds(p: nat, q: nat, adj: seq<seq<int>>, edges: seq<Edge>)
    requires |adj| == p + q && Simple(adj) && Bipartition(adj, p)
    ensures InsertAll(p, q, adj, edges).Success? <==> AllCross(p, q, edges)
    decreases |edges|
  {
    if edges != [] && ValidateCrossing(p, q, edges[0]) == Pass {
      InsertAdjEffect(adj, edges[0]);
      BipartitionInsert(adj, p, q, edges[0]);
      InsertAllSucceeds(p, q, InsertAdj(adj, edges[0]), edges[1..]);
      forall i | 0 <= i < |edges[1..]| ensures edges[1..][i] == edges[i + 1] { }
      if AllCross(p, q, edges[1..]) {
        forall i | 0 <= i < |edges| ensures ValidateCrossing(p, q, edges[i]) == Pass {
          if i > 0 {
            assert edges[i] == edges[1..][i - 1];
          }
        }
      }
    }
  }

  /** Inserted into lists with no edges, the edges are exactly the pairs of the list. */
  lemma InsertAllFromEmpty(p: nat, q: nat, edges: seq<Edge>, moves: seq<seq<int>>)
    requires InsertAll(p, q, EmptyAdj(p + q), edges) == Success(moves)
    ensures forall u, v :: Adjacent(moves, u, v) <==>
              exists e :: e in edges && SamePair(e, u, v)
  {
    EmptyAdjSimple(p + q);
    InsertAllAdjacent(p, q, EmptyAdj(p + q), edges);
  }

  /** A successful construction stores exactly the listed pairs on top of `adj`. */
  lemma {:induction false} InsertAllAdjacent(p: nat, q: nat, adj: seq<seq<int>>, edges: seq<Edge>)
    requires |adj| == p + q && Simple(adj) && Bipartition(adj, p)
    requires InsertAll(p, q, adj, edges).Success?
    ensures forall u, v :: Adjacent(InsertAll(p, q, adj, edges).value, u, v) <==>
              Adjacent(adj, u, v) || exists e :: e in edges && SamePair(e, u, v)
    decreases |edges|
  {
    if edges != [] {
      var e := edges[0];
      InsertAdjEffect(adj, e);
      BipartitionInsert(adj, p, q, e);
      var next := InsertAdj(adj, e);
      InsertAllAdjacent(p, q, next, edges[1..]);
      var r := InsertAll(p, q, next, edges[1..]);
      assert edges == [e] + edges[1..];
      forall u, v ensures Adjacent(r.value, u, v) <==>
        Adjacent(adj, u, v) || exists e' :: e' in edges && SamePair(e', u, v)
      {
        if exists e' :: e' in edges && SamePair(e', u, v) {
          var e' :| e' in edges && SamePair(e', u, v);
          if e' != e {
            assert e' in edges[1..];
          }
        }
      }
    }
  }

  /** A failed construction stops at the first edge that does not cross, with its validation error. */
  lemma {:induction false} InsertAllFails(p: nat, q: nat, adj: seq<seq<int>>, edges: seq<Edge>)
    requires |adj| == p + q && Simple(adj) && Bipartition(adj, p)
    requires InsertAll(p, q, adj, edges).Failure?
    ensures exists i :: FirstInvalid(p, q, edges, i) &&
              InsertAll(p, q, adj, edges).error ==
                EdgeOperationFailed(InsertEdgeOp, edges[i], ValidateCrossing(p, q, edges[i]).error)
    decreases |edges|
  {
    var e := edges[0];
    if ValidateCrossing(p, q, e) == Pass {
      InsertAdjEffect(adj, e);
      BipartitionInsert(adj, p, q, e);
      var next := InsertAdj(adj, e);
      InsertAllFails(p, q, next, edges[1..]);
      var i :| FirstInvalid(p, q, edges[1..], i) &&
        InsertAll(p, q, next, edges[1..]).error ==
          EdgeOperationFailed(InsertEdgeOp, edges[1..][i], ValidateCrossing(p, q, edges[1..][i]).error);
      assert edges[1..][i] == edges[i + 1];
      forall j | 0 <= j < i + 1 ensures ValidateCrossing(p, q, edges[j]) == Pass {
        if j > 0 {
          assert edges[j] == edges[1..][j - 1];
        }
      }
      assert FirstInvalid(p, q, edges, i + 1);
    } else {
      assert FirstInvalid(p, q, edges, 0);
    }
  }

  /** `marked.assign(p, false)`: every mark is cleared. */
  method ClearMarks(marked: array<bool>)
    modifies marked
    ensures marked[..] == Kuhn.NoMarks(marked.Length)
  {
    forall i | 0 <= i < marked.Length {
      marked[i] := false;
    }
  }

  class BipartiteGraph {
    const p: nat  // size of the left side (num_vertices_set_1_)
    const q: nat  // size of the right side (num_vertices_set_2_)
    var adj: seq<seq<int>>
    var numEdges: int

    /** The class invariant: a simple two-sided graph whose edge count is half the total degree. */
    ghost predicate Valid()
      reads this
    {
      && |adj| == p + q && Simple(adj) && Bipartition(adj, p)
      && Kuhn.LeftToRight(adj, p)
      && 2 * numEdges == TotalDegree(adj)
    }

    /** The graph with both sides sized and no edges yet. */
    constructor Empty(p: nat, q: nat)
      ensures this.p == p && this.q == q
      ensures adj == EmptyAdj(p + q) && numEdges == 0 && Valid()
    {
      this.p, this.q := p, q;
      adj, numEdges := EmptyAdj(p + q), 0;
      new;
      EmptyAdjSimple(p + q);
      BipartitionLeftToRight(adj, p);
    }

    /**
     * BipartiteGraph(p, q, edges): negative side sizes are refused, then the
     * edges are inserted in order; the first invalid edge is refused with
     * insertEdge's error.
     */
    static method Create(p: int, q: int, edges: seq<Edge>) returns (r: Result<BipartiteGraph>)
      ensures p < 0 ==> r == Failure(InvalidFirstSetSize(p))
      ensures 0 <= p && q < 0 ==> r == Failure(InvalidSecondSetSize(q))
      ensures 0 <= p && 0 <= q ==>
        match InsertAll(p, q, EmptyAdj(p + q), edges)
        case Failure(err) => r == Failure(err)
        case Success(a) =>
          r.Success? && fresh(r.value) && r.value.Valid() &&
          r.value.p == p && r.value.q == q && r.value.adj == a
    {
      if p < 0 {
        return Failure(InvalidFirstSetSize(p));
      }
      if q < 0 {
        return Failure(InvalidSecondSetSize(q));
      }
      var g := new BipartiteGraph.Empty(p, q);
      EmptyAdjSimple(p + q);
      var i := 0;
      while i < |edges|
        invariant 0 <= i <= |edges| && g.Valid() && g.p == p && g.q == q
        invariant InsertAll(p, q, EmptyAdj(p + q), edges) == InsertAll(p, q, g.adj, edges[i..])
      {
        assert edges[i..][0] == edges[i] && edges[i..][1..] == edges[i + 1..];
        var o := g.InsertEdge(edges[i]);
        if o.Fail? {
          return Failure(EdgeOperationFailed(InsertEdgeOp, edges[i], o.error));
        }
        i := i + 1;
      }
      return Success(g);
    }

    /** hasEdge: validation, then a search of `e.v1`'s list for `e.v2`. */
    method HasEdge(e: Edge) returns (r: Result<bool>)
      requires Valid()
      ensures r.Success? <==> ValidateCrossing(p, q, e) == Pass
      ensures r.Success? ==> (r.value <==> Adjacent(adj, e.v1, e.v2))
      ensures r.Failure? ==> r.error == EdgeOperationFailed(HasEdgeOp, e, ValidateCrossing(p, q, e).error)
    {
      var check := ValidateCrossing(p, q, e);
      if check.Fail? {
        return Failure(EdgeOperationFailed(HasEdgeOp, e, check.error));
      }
      var found := Contains(adj[e.v1], e.v2);
      return Success(found);
    }

    /**
     * insertEdge: after validation the pair is added to both lists and
     * counted, unless it is already present; the graph stays simple and
     * two-sided.
     */
    method InsertEdge(e: Edge) returns (o: Outcome)
      requires Valid()
      modifies this
      ensures Valid()
      ensures o == ValidateCrossing(p, q, e)
      ensures o.Fail? ==> adj == old(adj) && numEdges == old(numEdges)
      ensures o == Pass ==> adj == InsertAdj(old(adj), e)
      ensures o == Pass ==> numEdges == old(numEdges) + if Adjacent(old(adj), e.v1, e.v2) then 0 else 1
      ensures o == Pass ==> forall u, v :: Adjacent(adj, u, v) <==> Adjacent(old(adj), u, v) || SamePair(e, u, v)
    {
      o := ValidateCrossing(p, q, e);
      if o.Fail? {
        return;
      }
      InsertAdjEffect(adj, e);
      BipartitionInsert(adj, p, q, e);
      var present := HasEdge(e);
      if !present.value && e.v1 != e.v2 {
        adj := adj[e.v1 := [e.v2] + adj[e.v1]][e.v2 := [e.v1] + adj[e.v2]];
        numEdges := numEdges + 1;
      }
      BipartitionLeftToRight(adj, p);
    }

    /**
     * findAugmentingPath(v, match, marked): the search of Kuhn.Augment, run
     * in place on the two arrays.
     */
    method FindAugmentingPath(v: int, mate: array<int>, marked: array<bool>) returns (found: bool)
      requires |adj| == p + q && Kuhn.LeftToRight(adj, p)
      requires mate.Length == p + q && marked.Length == p && 0 <= v < p
      requires Kuhn.MatchInRange(mate[..], p)
      modifies mate, marked
      ensures Kuhn.Search(found, mate[..], marked[..]) == Kuhn.Augment(adj, v, old(mate[..]), old(marked[..]))
      decreases Kuhn.Unmarked(marked[..]), 0
    {
      if marked[v] {
        return false;
      }
      ghost var full := Kuhn.Augment(adj, v, mate[..], marked[..]);
      ghost var entry := Kuhn.Unmarked(marked[..]);
      assert Kuhn.Unmarked(marked[..][v := true]) == entry - 1;
      marked[v] := true;
      assert marked[..] == old(marked[..])[v := true];
      var nbrs := adj[v];
      forall i | 0 <= i < |nbrs| ensures p <= nbrs[i] < p + q { }
      var i := 0;
      while i < |nbrs|
        invariant 0 <= i <= |nbrs|
        invariant Kuhn.MatchInRange(mate[..], p) && Kuhn.Unmarked(marked[..]) < entry
        invariant full == Kuhn.AugmentLoop(adj, v, nbrs[i..], mate[..], marked[..])
      {
        assert nbrs[i..][0] == nbrs[i] && nbrs[i..][1..] == nbrs[i + 1..];
        var u := nbrs[i];
        if mate[u] == -1 {
          mate[u] := v;
          return true;
        }
        var sub := FindAugmentingPath(mate[u], mate, marked);
        if sub {
          mate[u] := v;
          return true;
        }
        i := i + 1;
      }
      return false;
    }

    /** One root of maxMatching: every mark is cleared, then the search runs from `v`. */
    method SearchFromRoot(v: int, mate: array<int>, marked: array<bool>) returns (found: bool)
      requires |adj| == p + q && Kuhn.LeftToRight(adj, p)
      requires mate.Length == p + q && marked.Length == p && 0 <= v < p
      requires Kuhn.MatchInRange(mate[..], p)
      modifies mate, marked
      ensures Kuhn.Search(found, mate[..], marked[..]) == Kuhn.Augment(adj, v, old(mate[..]), Kuhn.NoMarks(p))
    {
      ClearMarks(marked);
      found := FindAugmentingPath(v, mate, marked);
    }

    /**
     * maxMatching(match): every right and left entry of `match` starts at -1;
     * each left vertex in turn is a root, with all marks cleared, and every
     * successful search counts one matched pair.
     */
    method MaxMatching() returns (size: int, mate: array<int>)
      requires |adj| == p + q && Kuhn.LeftToRight(adj, p)
      ensures fresh(mate) && mate.Length == p + q
      ensures Kuhn.Matching(size, mate[..]) == Kuhn.MaxMatching(adj, p)
    {
      mate := new int[p + q](_ => -1);
      var marked := new bool[p];
      size := 0;
      assert mate[..] == Kuhn.Unmatched(p + q);
      for v := 0 to p
        invariant Kuhn.KuhnUpTo(adj, p, v) == Kuhn.Matching(size, mate[..])
      {
        Kuhn.KuhnUpToNext(adj, p, v, size, mate[..]);
        var found := SearchFromRoot(v, mate, marked);
        if found {
          size := size + 1;
        }
      }
    }
  }
}
