# Triangle connectivity checks

This project models the triangle connectivity logic of a tool that reads a
triangulated 3D surface (an STL "triangle soup") and rebuilds which facets
touch. The modelled core is the `Triangle` class of
`src/model_conversion/triangle.py`:

- construction from three edges, kept in argument order (the source stores
  them in a list field named `triangles`);
- `is_closed_loop`, the local manifold check: every pair of the facet's three
  edges shares a vertex;
- the static `are_neighbors`, which scans every edge of one collection against
  every edge of another with a flag that is only ever set, never cleared, and
  never leaves the loops early.

The edge class is not part of this model. Its two predicates,
`has_shared_vertex` and `same_edge`, are parameters of every operation
(`EdgePredicates.EdgeRelations`, two total boolean functions over an abstract edge
type `E`). No property of them is assumed: where a result needs symmetry or
reflexivity of `same_edge`, or symmetry of `has_shared_vertex`, the lemma asks
for it in its `requires` (`EdgePredicates.SameEdgeSymmetric`, `EdgePredicates.SameEdgeReflexive`,
`EdgePredicates.SharedVertexSymmetric`).

`are_neighbors` iterates its arguments directly and `Triangle` defines no
iteration, so its arguments are modelled as sequences of edges,
`seq<E>`. Its specification is `Triangles.SharesEdge`: some edge of the first
collection is the same edge as some edge of the second. `Triangles.MatchCount`
counts matching edge pairs (with its per-edge helper `Triangles.RowMatches`); the
source has no counter, and the count only serves to state that `are_neighbors` does not count matches.

Files: `edge.dfy` (module `EdgePredicates`), `triangle.dfy` (module `Triangles`).

## Model

| member | source | states |
|---|---|---|
| Triangles.Triangle.Edges | src/model_conversion/triangle.py:18-25 | the stored edge list has exactly three entries: the first, second and third constructor argument, in that order |
| Triangles.Triangle.IsClosedLoop | src/model_conversion/triangle.py:27-38 | the facet is a closed loop if and only if, for every pair of positions i < j among its three edges, the edge at i shares a vertex with the edge at j |
| Triangles.OpenWhenAnyPairDisjoint | src/model_conversion/triangle.py:34-38 | if any one of the three pairwise shared-vertex checks fails, the facet is not a closed loop |
| Triangles.ClosedLoopIgnoresEdgeOrder | src/model_conversion/triangle.py:32-38 | when sharing a vertex is symmetric, rotating or swapping the edges does not change the closed-loop verdict |
| Triangles.AreNeighbors | src/model_conversion/triangle.py:40-56 | the nested flag loop with no early exit returns true exactly when some edge of the first collection is the same edge as some edge of the second; it returns false when either collection is empty |
| Triangles.SharesEdgeIffSomeMatch | src/model_conversion/triangle.py:53-55 | the collections are neighbours exactly when the number of matching edge pairs is at least one: one match or many give the same answer |
| Triangles.TwoSharedEdgesStillNeighbors | src/model_conversion/triangle.py:53-55 | for any two edge collections and any two different index pairs that both match, the match count is at least two and the collections are neighbours; there is no "exactly one shared edge" rule |
| Triangles.SharesEdgeSymmetric | src/model_conversion/triangle.py:50-55 | when the same-edge predicate is symmetric, swapping the two arguments does not change whether they are neighbours |
| Triangles.NeighborsNotSymmetricInGeneral | src/model_conversion/triangle.py:50-55 | symmetry is inherited from the edge predicate only: with a one-directional same-edge predicate, [0] neighbours [1] but [1] does not neighbour [0] |
| Triangles.NonEmptyIsOwnNeighbor | src/model_conversion/triangle.py:48-56 | when the same-edge predicate is reflexive, every non-empty edge collection is its own neighbour |
| Triangles.TriangleIsOwnNeighbor | src/model_conversion/triangle.py:50-55 | when the same-edge predicate is reflexive, a triangle's three-edge list is its own neighbour |
| Triangles.SharesEdgeMonotone | src/model_conversion/triangle.py:48-56 | adding edges to either collection never turns neighbours into non-neighbours |

## Left out

- The edge class (`src/model_conversion/edge.py`): how it represents vertices and how its two predicates compare them is outside this model, so `has_shared_vertex` and `same_edge` are arbitrary parameters.
- Triangles.Triangle.IsClosedLoop: being read-only (the edge list is unchanged afterwards) is not a contract; it holds because the model is a pure function over an immutable value.
- Python's mutable attribute: the source could replace or shorten the `triangles` list after construction and then index it; the model fixes three edges in the datatype, as construction produces.
- Calling `are_neighbors` on two `Triangle` objects directly would fail in the source, since `Triangle` is not iterable; the model takes the edge sequences the loops actually iterate.
- The model conversion pipeline (`ModelShipper`, exercised by `tests/ci_tests/unit/model_conversion/test_model_shipper.py`) is outside the triangle logic modelled here; it loads STL files and compares numpy array data.
- An "exactly one shared edge" adjacency rule: the code accepts one or more shared edges, so the model has no such rule (see Triangles.SharesEdgeIffSomeMatch and Triangles.TwoSharedEdgesStillNeighbors).
- Single-pass iterables: the source re-iterates its second argument for every edge of the first, so a generator or `iter(list)` there would be used up after the first outer pass and only the first edge of `t1` would be compared; the model takes `seq<E>`, which assumes re-iterable collections such as lists.
- Triangle identity: the source's triangles are mutable objects without `__eq__`, compared by identity; the model treats a triangle as the value of its three edges and states no equality fact about triangles.
