/**
 * The boolean marking buffers that isDominatingSet (is_dominated) and
 * findSafeDominatingSets (defended_vertices_) fill and then scan.
 */
module Marks {

  /** The `for (v : vs) marks[v] = true;` loops: set the entry of every listed id. */
  method MarkAll(marks: array<bool>, vs: seq<int>)
    requires forall i :: 0 <= i < |vs| ==> 0 <= vs[i] < marks.Length
    modifies marks
    ensures forall w :: 0 <= w < marks.Length ==> (marks[w] <==> old(marks[w]) || w in vs)
  {
    for i := 0 to |vs|
      invariant forall w :: 0 <= w < marks.Length ==> (marks[w] <==> old(marks[w]) || w in vs[..i])
    {
      assert vs[..i + 1] == vs[..i] + [vs[i]];
      marks[vs[i]] := true;
    }
    assert vs[..|vs|] == vs;
  }

  /** The final scan: every entry is set (the scan stops at the first unset one). */
  method AllMarked(marks: array<bool>) returns (all: bool)
    ensures all <==> forall w :: 0 <= w < marks.Length ==> marks[w]
  {
    for w := 0 to marks.Length
      invariant forall w' :: 0 <= w' < w ==> marks[w']
    {
      if !marks[w] {
        return false;
      }
    }
    return true;
  }
}
