/**
  The edge side of the triangle logic.

  How the edge class represents vertices and how its two predicates compare
  them is outside this model. What the triangle code consults is two boolean predicates over pairs of edges, so those become the
  model's only view of an edge: any pair of total functions over an abstract
  edge type `E`. Properties such as symmetry or reflexivity are NOT assumed;
  they are named here so that a lemma can ask for them explicitly.
*/
module EdgePredicates {

  /** The two predicates of the edge class that the triangle code calls. */
  datatype EdgeRelations<!E> = EdgeRelations(
    hasSharedVertex: (E, E) -> bool,  // some endpoint of one edge is an endpoint of the other
    sameEdge: (E, E) -> bool          // the two edges join the same pair of vertices
  )

  ghost predicate SameEdgeSymmetric<E(!new)>(rel: EdgeRelations<E>) {
    forall x, y :: rel.sameEdge(x, y) == rel.sameEdge(y, x)
  }

  ghost predicate SameEdgeReflexive<E(!new)>(rel: EdgeRelations<E>) {
    forall x :: rel.sameEdge(x, x)
  }

  ghost predicate SharedVertexSymmetric<E(!new)>(rel: EdgeRelations<E>) {
    forall x, y :: rel.hasSharedVertex(x, y) == rel.hasSharedVertex(y, x)
  }
}
