/**
  A triangle as three edges, its local closed-loop check, and the test of
  whether two edge collections share an edge.
*/
module Triangles {
  import opened EdgePredicates

  /** A facet made of three edges, kept in the order they were given.
      Construction accepts any three edges: closure is a query, not a
      precondition, so a malformed facet is representable. */
  datatype Triangle<E> = Triangle(e1: E, e2: E, e3: E) {

    /** The stored edge list (the source keeps it in a field named
        `triangles`): exactly three edges, in argument order. */
    function Edges(): (r: seq<E>)
      ensures |r| == 3
      ensures r[0] == e1 && r[1] == e2 && r[2] == e3
    {
      [e1, e2, e3]
    }

    /** The local manifold check: the facet is a closed loop when every
        pair of its edges shares a vertex. */
    function IsClosedLoop(rel: EdgeRelations<E>): (closed: bool)
      ensures closed <==>
        forall i, j :: 0 <= i < j < 3 ==> rel.hasSharedVertex(Edges()[i], Edges()[j])
    {
      var start := Edges()[0];
      var firstCheck := rel.hasSharedVertex(start, Edges()[1]);
      var secondCheck := rel.hasSharedVertex(start, Edges()[2]);
      var thirdCheck := rel.hasSharedVertex(Edges()[1], Edges()[2]);
      firstCheck && secondCheck && thirdCheck
    }
  }

  /** One failing pairwise check is enough to make the facet open. */
  lemma OpenWhenAnyPairDisjoint<E>(rel: EdgeRelations<E>, t: Triangle<E>, i: int, j: int)
    requires 0 <= i < j < 3
    requires !rel.hasSharedVertex(t.Edges()[i], t.Edges()[j])
    ensures !t.IsClosedLoop(rel)
  {
  }

  /** When sharing a vertex is symmetric, the order in which the three edges
      were given does not affect the closed-loop verdict. */
  lemma ClosedLoopIgnoresEdgeOrder<E(!new)>(rel: EdgeRelations<E>, a: E, b: E, c: E)
    requires SharedVertexSymmetric(rel)
    ensures Triangle(a, b, c).IsClosedLoop(rel) == Triangle(b, c, a).IsClosedLoop(rel)
    ensures Triangle(a, b, c).IsClosedLoop(rel) == Triangle(b, a, c).IsClosedLoop(rel)
  {
  }

  /** Some edge of `t1` is the same edge as some edge of `t2`. */
  predicate SharesEdge<E>(rel: EdgeRelations<E>, t1: seq<E>, t2: seq<E>) {
    exists a, b :: 0 <= a < |t1| && 0 <= b < |t2| && rel.sameEdge(t1[a], t2[b])
  }

  /** Whether two edge collections share at least one edge. Like the source,
      it compares every pair and never stops early; the flag only ever goes
      from false to true. */
  method AreNeighbors<E>(rel: EdgeRelations<E>, t1: seq<E>, t2: seq<E>) returns (result: bool)
    ensures result <==> SharesEdge(rel, t1, t2)
    ensures |t1| == 0 || |t2| == 0 ==> !result
  {
    result := false;
    for i := 0 to |t1|
      invariant result <==>
        exists a, b :: 0 <= a < i && 0 <= b < |t2| && rel.sameEdge(t1[a], t2[b])
    {
      for j := 0 to |t2|
        invariant result <==>
          (exists a, b :: 0 <= a < i && 0 <= b < |t2| && rel.sameEdge(t1[a], t2[b]))
          || (exists b :: 0 <= b < j && rel.sameEdge(t1[i], t2[b]))
      {
        if rel.sameEdge(t1[i], t2[j]) {
          result := true;
        }
      }
    }
  }

  /** Counting helper (the source only sets a flag; it never counts):
      number of edges of `t2` that are the same edge as `x`. */
  function RowMatches<E>(rel: EdgeRelations<E>, x: E, t2: seq<E>): nat {
    if |t2| == 0 then 0
    else (if rel.sameEdge(x, t2[0]) then 1 else 0) + RowMatches(rel, x, t2[1..])
  }

  /** Number of index pairs (a, b) with `t1[a]` the same edge as `t2[b]`. */
  function MatchCount<E>(rel: EdgeRelations<E>, t1: seq<E>, t2: seq<E>): nat {
    if |t1| == 0 then 0
    else RowMatches(rel, t1[0], t2) + MatchCount(rel, t1[1..], t2)
  }

  lemma {:induction false} RowMatchesPositiveIff<E>(rel: EdgeRelations<E>, x: E, t2: seq<E>)
    ensures RowMatches(rel, x, t2) > 0 <==> exists b :: 0 <= b < |t2| && rel.sameEdge(x, t2[b])
    decreases |t2|
  {
    if |t2| > 0 {
      RowMatchesPositiveIff(rel, x, t2[1..]);
      if !rel.sameEdge(x, t2[0]) {
        forall b | 0 <= b < |t2| && rel.sameEdge(x, t2[b])
          ensures 0 <= b - 1 < |t2[1..]| && rel.sameEdge(x, t2[1..][b - 1])
        {
          assert b != 0;
        }
      }
    }
  }

  /** Neighbourhood does not count matches: any positive number of matching
      edge pairs, one or many, makes the collections neighbours. */
  lemma {:induction false} SharesEdgeIffSomeMatch<E>(rel: EdgeRelations<E>, t1: seq<E>, t2: seq<E>)
    ensures SharesEdge(rel, t1, t2) <==> MatchCount(rel, t1, t2) >= 1
    decreases |t1|
  {
    if |t1| > 0 {
      RowMatchesPositiveIff(rel, t1[0], t2);
      SharesEdgeIffSomeMatch(rel, t1[1..], t2);
      if SharesEdge(rel, t1, t2) {
        var a, b :| 0 <= a < |t1| && 0 <= b < |t2| && rel.sameEdge(t1[a], t2[b]);
        if a > 0 {
          assert rel.sameEdge(t1[1..][a - 1], t2[b]);
        }
      }
      if SharesEdge(rel, t1[1..], t2) {
        var a, b :| 0 <= a < |t1[1..]| && 0 <= b < |t2| && rel.sameEdge(t1[1..][a], t2[b]);
        assert rel.sameEdge(t1[a + 1], t2[b]);
      }
    }
  }

  /** With a symmetric same-edge predicate, neighbourhood is symmetric. */
  lemma SharesEdgeSymmetric<E(!new)>(rel: EdgeRelations<E>, t1: seq<E>, t2: seq<E>)
    requires SameEdgeSymmetric(rel)
    ensures SharesEdge(rel, t1, t2) <==> SharesEdge(rel, t2, t1)
  {
  }

  /** Symmetry is inherited from the edge predicate and not built in: with a
      one-directional predicate the argument order matters. */
  lemma NeighborsNotSymmetricInGeneral()
    ensures var rel := EdgeRelations((x: int, y: int) => x == y, (x: int, y: int) => x < y);
      SharesEdge(rel, [0], [1]) && !SharesEdge(rel, [1], [0])
  {
    var rel := EdgeRelations((x: int, y: int) => x == y, (x: int, y: int) => x < y);
    assert rel.sameEdge([0][0], [1][0]);
  }

  /** With a reflexive same-edge predicate, a non-empty edge collection is its
      own neighbour. */
  lemma NonEmptyIsOwnNeighbor<E(!new)>(rel: EdgeRelations<E>, t: seq<E>)
    requires SameEdgeReflexive(rel)
    requires |t| > 0
    ensures SharesEdge(rel, t, t)
  {
    assert rel.sameEdge(t[0], t[0]);
  }

  /** In particular every triangle's edge list is its own neighbour. */
  lemma TriangleIsOwnNeighbor<E(!new)>(rel: EdgeRelations<E>, t: Triangle<E>)
    requires SameEdgeReflexive(rel)
    ensures SharesEdge(rel, t.Edges(), t.Edges())
  {
  }

  /** Adding edges to either collection never removes a shared edge. */
  lemma SharesEdgeMonotone<E>(rel: EdgeRelations<E>, t1: seq<E>, t2: seq<E>, u1: seq<E>, u2: seq<E>)
    requires forall x :: x in t1 ==> x in u1
    requires forall y :: y in t2 ==> y in u2
    requires SharesEdge(rel, t1, t2)
    ensures SharesEdge(rel, u1, u2)
  {
    var a, b :| 0 <= a < |t1| && 0 <= b < |t2| && rel.sameEdge(t1[a], t2[b]);
    assert t1[a] in u1 && t2[b] in u2;
    var a' :| 0 <= a' < |u1| && u1[a'] == t1[a];
    var b' :| 0 <= b' < |u2| && u2[b'] == t2[b];
    assert rel.sameEdge(u1[a'], u2[b']);
  }

  /** An edge matched at two positions of `t2` counts twice in its row. */
  lemma {:induction false} RowMatchesTwo<E>(rel: EdgeRelations<E>, x: E, t2: seq<E>, b1: int, b2: int)
    requires 0 <= b1 < b2 < |t2|
    requires rel.sameEdge(x, t2[b1]) && rel.sameEdge(x, t2[b2])
    ensures RowMatches(rel, x, t2) >= 2
    decreases |t2|
  {
    if b1 == 0 {
      RowMatchesPositiveIff(rel, x, t2[1..]);
      assert rel.sameEdge(x, t2[1..][b2 - 1]);
    } else {
      assert rel.sameEdge(x, t2[1..][b1 - 1]) && rel.sameEdge(x, t2[1..][b2 - 1]);
      RowMatchesTwo(rel, x, t2[1..], b1 - 1, b2 - 1);
    }
  }

  /** The count over all pairs is at least the sum of any two distinct rows
      (and, taking `a2` past the end, at least any single row). */
  lemma {:induction false} MatchCountCoversRows<E>(rel: EdgeRelations<E>, t1: seq<E>, t2: seq<E>, a1: int, a2: int)
    requires 0 <= a1 < a2 <= |t1|
    ensures MatchCount(rel, t1, t2) >=
      RowMatches(rel, t1[a1], t2) + (if a2 < |t1| then RowMatches(rel, t1[a2], t2) else 0)
    decreases |t1|
  {
    if a1 > 0 {
      assert t1[1..][a1 - 1] == t1[a1];
      assert a2 < |t1| ==> t1[1..][a2 - 1] == t1[a2];
      MatchCountCoversRows(rel, t1[1..], t2, a1 - 1, a2 - 1);
    } else if a2 < |t1| {
      assert t1[1..][a2 - 1] == t1[a2];
      MatchCountCoversRows(rel, t1[1..], t2, a2 - 1, |t1| - 1);
    }
  }

  /** Collections that share edges at two different index pairs are still
      neighbours, and both matches are seen: the neighbour test is "at least one",
      not "exactly one". */
  lemma TwoSharedEdgesStillNeighbors<E>(rel: EdgeRelations<E>, t1: seq<E>, t2: seq<E>,
                                        a1: int, b1: int, a2: int, b2: int)
    requires 0 <= a1 < |t1| && 0 <= b1 < |t2| && 0 <= a2 < |t1| && 0 <= b2 < |t2|
    requires (a1, b1) != (a2, b2)
    requires rel.sameEdge(t1[a1], t2[b1]) && rel.sameEdge(t1[a2], t2[b2])
    ensures MatchCount(rel, t1, t2) >= 2
    ensures SharesEdge(rel, t1, t2)
  {
    if a1 == a2 {
      if b1 < b2 {
        RowMatchesTwo(rel, t1[a1], t2, b1, b2);
      } else {
        RowMatchesTwo(rel, t1[a1], t2, b2, b1);
      }
      MatchCountCoversRows(rel, t1, t2, a1, |t1|);
    } else {
      RowMatchesPositiveIff(rel, t1[a1], t2);
      RowMatchesPositiveIff(rel, t1[a2], t2);
      if a1 < a2 {
        MatchCountCoversRows(rel, t1, t2, a1, a2);
      } else {
        MatchCountCoversRows(rel, t1, t2, a2, a1);
      }
    }
  }
}
