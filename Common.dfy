/**
 * Values shared by the three graph classes: the edge pair (Edge.h), and the
 * failures that the C++ code raises as exceptions, modelled as values.
 */
module Common {

  /** An edge as the source's Edge class: two vertex ids, in the order given. */
  datatype Edge = Edge(v1: int, v2: int)

  /** The edge operation that wrapped a validation failure (throw_with_nested). */
  datatype Operation = HasEdgeOp | InsertEdgeOp | RemoveEdgeOp

  datatype Error =
    | InvalidVertexCount(count: int)                      // invalid_argument in a constructor
    | InvalidFirstSetSize(size: int)                      // BipartiteGraph: left side size < 0
    | InvalidSecondSetSize(size: int)                     // BipartiteGraph: right side size < 0
    | InvalidVertex(v: int)                               // out_of_range from validateVertex
    | InvalidFirstSetVertex(v: int)                       // out_of_range from validateVertexSet1
    | InvalidSecondSetVertex(v: int)                      // out_of_range from validateVertexSet2
    | InvalidEdge(e: Edge)                                // invalid_argument: bipartite self-loop
    | EdgeOperationFailed(op: Operation, e: Edge, cause: Error)  // runtime_error with a nested cause

  datatype Result<T> = Success(value: T) | Failure(error: Error)

  datatype Outcome = Pass | Fail(error: Error)
}
