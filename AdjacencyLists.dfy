/**
 * The adjacency-list representation shared by Graph, ConfigurationGraph and
 * BipartiteGraph: one list of neighbour ids per vertex (std::list<int>, new
 * neighbours pushed at the front), with the validated has/insert/remove edge
 * operations written once here as functions on the list values.
 */
module AdjacencyLists {
  import opened Common

  /** `v` occurs in the list of `u`. */
  predicate Adjacent(adj: seq<seq<int>>, u: int, v: int) {
    0 <= u < |adj| && v in adj[u]
  }

  /** `(u, v)` is the unordered pair of `e`'s endpoints. */
  predicate SamePair(e: Edge, u: int, v: int) {
    (u == e.v1 && v == e.v2) || (u == e.v2 && v == e.v1)
  }

  /**
   * The invariant of a simple undirected graph held as adjacency lists:
   * neighbours are vertices, no self-loops, no list holds a neighbour twice,
   * and every edge is stored in both endpoints' lists.
   */
  ghost predicate Simple(adj: seq<seq<int>>) {
    && (forall u, v :: Adjacent(adj, u, v) ==> 0 <= v < |adj| && v != u)
    && (forall u, v :: 0 <= u < |adj| ==> multiset(adj[u])[v] <= 1)
    && (forall u, v :: Adjacent(adj, u, v) ==> Adjacent(adj, v, u))
  }

  /** Sum of the list lengths; twice the number of edges of a simple graph. */
  function TotalDegree(adj: seq<seq<int>>): nat {
    if adj == [] then 0 else TotalDegree(adj[..|adj| - 1]) + |adj[|adj| - 1]|
  }

  /** validateVertex: an id names a vertex when it lies in [0, n). */
  function ValidateVertex(n: int, v: int): (o: Outcome)
    ensures o == Pass <==> 0 <= v < n
    ensures o.Fail? ==> o.error == InvalidVertex(v)
  {
    if v < 0 || v >= n then Fail(InvalidVertex(v)) else Pass
  }

  /** validateEdge: both endpoints must name vertices; the first endpoint is checked first. */
  function ValidateEdge(n: int, e: Edge): (o: Outcome)
    ensures o == Pass <==> 0 <= e.v1 < n && 0 <= e.v2 < n
    ensures !(0 <= e.v1 < n) ==> o == Fail(InvalidVertex(e.v1))
    ensures 0 <= e.v1 < n && !(0 <= e.v2 < n) ==> o == Fail(InvalidVertex(e.v2))
  {
    if ValidateVertex(n, e.v1).Fail? then ValidateVertex(n, e.v1) else ValidateVertex(n, e.v2)
  }

  /** The list after erasing the first occurrence of `x` (std::list::erase at the first match). */
  function RemoveFirst(l: seq<int>, x: int): seq<int> {
    if l == [] then []
    else if l[0] == x then l[1..]
    else [l[0]] + RemoveFirst(l[1..], x)
  }

  /** Erasing the first occurrence removes one copy of `x`, if there is one, and nothing else. */
  lemma {:induction false} RemoveFirstCounts(l: seq<int>, x: int)
    ensures multiset(RemoveFirst(l, x)) == multiset(l) - multiset{x}
    ensures x in l ==> |RemoveFirst(l, x)| == |l| - 1
    ensures x !in l ==> RemoveFirst(l, x) == l
  {
    if l != [] {
      assert l == [l[0]] + l[1..];
      if l[0] != x {
        RemoveFirstCounts(l[1..], x);
      }
    }
  }

  /**
   * insertEdge after validation: the pair is added, at the front of both
   * lists, unless it is a loop or already present.
   */
  function InsertAdj(adj: seq<seq<int>>, e: Edge): seq<seq<int>>
    requires 0 <= e.v1 < |adj| && 0 <= e.v2 < |adj|
  {
    if !(e.v2 in adj[e.v1]) && e.v1 != e.v2 then
      adj[e.v1 := [e.v2] + adj[e.v1]][e.v2 := [e.v1] + adj[e.v2]]
    else adj
  }

  /**
   * removeEdge after validation: when `v2` is in `v1`'s list, erase it there,
   * then erase `v1` from `v2`'s list; otherwise nothing changes.
   */
  function RemoveAdj(adj: seq<seq<int>>, e: Edge): seq<seq<int>>
    requires 0 <= e.v1 < |adj| && 0 <= e.v2 < |adj|
  {
    if e.v2 in adj[e.v1] then
      var first := adj[e.v1 := RemoveFirst(adj[e.v1], e.v2)];
      first[e.v2 := RemoveFirst(first[e.v2], e.v1)]
    else adj
  }

  /** Lists with no neighbours, as `adjacency_lists_.resize(n)` leaves them. */
  function EmptyAdj(n: nat): (adj: seq<seq<int>>)
    ensures |adj| == n && TotalDegree(adj) == 0
    ensures forall u :: 0 <= u < n ==> adj[u] == []
    ensures forall u, v :: !Adjacent(adj, u, v)
  {
    if n == 0 then []
    else
      var prefix := EmptyAdj(n - 1);
      assert (prefix + [[]])[..n - 1] == prefix;
      prefix + [[]]
  }

  lemma EmptyAdjSimple(n: nat)
    ensures Simple(EmptyAdj(n))
  {
  }

  lemma {:induction false} TotalDegreeUpdate(adj: seq<seq<int>>, i: int, l: seq<int>)
    requires 0 <= i < |adj|
    ensures TotalDegree(adj[i := l]) == TotalDegree(adj) - |adj[i]| + |l|
  {
    var last := |adj| - 1;
    if i == last {
      assert adj[i := l][..last] == adj[..last];
    } else {
      assert adj[i := l][..last] == adj[..last][i := l];
      TotalDegreeUpdate(adj[..last], i, l);
    }
  }

  /**
   * Inserting a valid edge keeps the graph simple, adds exactly the pair
   * (unless it is a loop), and raises the total degree by two exactly when
   * the pair is new.
   */
  lemma InsertAdjEffect(adj: seq<seq<int>>, e: Edge)
    requires Simple(adj)
    requires 0 <= e.v1 < |adj| && 0 <= e.v2 < |adj|
    ensures Simple(InsertAdj(adj, e)) && |InsertAdj(adj, e)| == |adj|
    ensures forall u, v :: Adjacent(InsertAdj(adj, e), u, v) <==>
              Adjacent(adj, u, v) || (e.v1 != e.v2 && SamePair(e, u, v))
    ensures TotalDegree(InsertAdj(adj, e)) ==
              TotalDegree(adj) + if e.v1 != e.v2 && !Adjacent(adj, e.v1, e.v2) then 2 else 0
  {
    if !(e.v2 in adj[e.v1]) && e.v1 != e.v2 {
      var first := adj[e.v1 := [e.v2] + adj[e.v1]];
      var second := first[e.v2 := [e.v1] + adj[e.v2]];
      TotalDegreeUpdate(adj, e.v1, [e.v2] + adj[e.v1]);
      TotalDegreeUpdate(first, e.v2, [e.v1] + adj[e.v2]);
      assert !Adjacent(adj, e.v2, e.v1);
      forall u, v | 0 <= u < |adj|
        ensures v in second[u] <==> v in adj[u] || SamePair(e, u, v)
      {
      }
      forall u, v | Adjacent(second, u, v)
        ensures 0 <= v < |second| && v != u && Adjacent(second, v, u)
      {
        if !SamePair(e, u, v) {
          assert Adjacent(adj, u, v);
        }
      }
    }
  }

  /** Erasing the only occurrence of `x` leaves exactly the other elements. */
  lemma RemoveFirstExact(l: seq<int>, x: int)
    requires multiset(l)[x] <= 1
    ensures forall v :: v in RemoveFirst(l, x) <==> v in l && v != x
    ensures forall v :: multiset(RemoveFirst(l, x))[v] <= multiset(l)[v]
    ensures x in l ==> |RemoveFirst(l, x)| == |l| - 1
  {
    var r := RemoveFirst(l, x);
    RemoveFirstCounts(l, x);
    forall v ensures v in r <==> v in l && v != x {
      assert v in r <==> multiset(r)[v] > 0;
      assert v in l <==> multiset(l)[v] > 0;
    }
  }

  /**
   * Removing a valid edge keeps the graph simple, deletes exactly the pair,
   * and lowers the total degree by two exactly when the pair was present.
   */
  lemma RemoveAdjEffect(adj: seq<seq<int>>, e: Edge)
    requires Simple(adj)
    requires 0 <= e.v1 < |adj| && 0 <= e.v2 < |adj|
    ensures Simple(RemoveAdj(adj, e)) && |RemoveAdj(adj, e)| == |adj|
    ensures forall u, v :: Adjacent(RemoveAdj(adj, e), u, v) <==>
              Adjacent(adj, u, v) && !SamePair(e, u, v)
    ensures TotalDegree(RemoveAdj(adj, e)) ==
              TotalDegree(adj) - if Adjacent(adj, e.v1, e.v2) then 2 else 0
  {
    if e.v2 in adj[e.v1] {
      var a, b := e.v1, e.v2;
      assert Adjacent(adj, a, b) && Adjacent(adj, b, a);
      var la, lb := RemoveFirst(adj[a], b), RemoveFirst(adj[b], a);
      var first := adj[a := la];
      assert first[b] == adj[b];
      var second := first[b := lb];
      assert second == RemoveAdj(adj, e);
      TotalDegreeUpdate(adj, a, la);
      TotalDegreeUpdate(first, b, lb);
      RemoveFirstExact(adj[a], b);
      RemoveFirstExact(adj[b], a);
      forall u, v | 0 <= u < |adj|
        ensures v in second[u] <==> v in adj[u] && !SamePair(e, u, v)
        ensures multiset(second[u])[v] <= 1
      {
        if u == a {
          assert second[u] == la;
        } else if u == b {
          assert second[u] == lb;
        } else {
          assert second[u] == adj[u];
        }
      }
      forall u, v | Adjacent(second, u, v)
        ensures 0 <= v < |second| && v != u && Adjacent(second, v, u)
      {
        assert Adjacent(adj, u, v) && !SamePair(e, u, v);
        assert Adjacent(adj, v, u);
      }
      assert Simple(second);
    }
  }

  /** The search loop of hasEdge: is `x` in the list? */
  method Contains(l: seq<int>, x: int) returns (found: bool)
    ensures found <==> x in l
  {
    var i := 0;
    while i < |l|
      invariant 0 <= i <= |l|
      invariant x !in l[..i]
    {
      if l[i] == x {
        return true;
      }
      assert l[..i + 1] == l[..i] + [l[i]];
      i := i + 1;
    }
    assert l[..i] == l;
    return false;
  }

  lemma {:induction false} RemoveFirstAt(l: seq<int>, x: int, i: int)
    requires 0 <= i < |l| && l[i] == x && x !in l[..i]
    ensures RemoveFirst(l, x) == l[..i] + l[i + 1..]
  {
    if i > 0 {
      var t := l[1..];
      assert l[0] in l[..i];
      assert t[..i - 1] == l[1..i];
      RemoveFirstAt(t, x, i - 1);
      assert t[i..] == l[i + 1..];
      assert l[..i] == [l[0]] + t[..i - 1];
    }
  }

  /** The erase loop of removeEdge: erase the first occurrence of `x`, and say whether there was one. */
  method EraseFirst(l: seq<int>, x: int) returns (r: seq<int>, found: bool)
    ensures found <==> x in l
    ensures r == RemoveFirst(l, x)
  {
    var i := 0;
    while i < |l|
      invariant 0 <= i <= |l|
      invariant x !in l[..i]
    {
      if l[i] == x {
        RemoveFirstAt(l, x, i);
        return l[..i] + l[i + 1..], true;
      }
      assert l[..i + 1] == l[..i] + [l[i]];
      i := i + 1;
    }
    assert l[..i] == l;
    RemoveFirstCounts(l, x);
    return l, false;
  }
}
