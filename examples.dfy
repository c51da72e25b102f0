/**
  Worked runs of the loop on small graphs: a triangle of equal weights,
  where the last edge closes a cycle, and two equal-weight edges that the
  stable sort keeps in input order.
 */
module KruskalExamples {
  import opened Graph
  import opened EdgeSort
  import opened Kruskal

  /** Triangle 0-1-2 with unit weights: two edges accepted, the third rejected. */
  lemma TriangleRun()
    ensures InRange([Edge(0, 1, 1), Edge(1, 2, 1), Edge(0, 2, 1)], 3)
    ensures Process(3, [Edge(0, 1, 1), Edge(1, 2, 1), Edge(0, 2, 1)]) ==
            Run([Edge(0, 1, 1), Edge(1, 2, 1)], 2, [Accepted, Accepted, RejectedCycle])
  {
    var e0, e1, e2 := Edge(0, 1, 1), Edge(1, 2, 1), Edge(0, 2, 1);
    TriangleLabels();
    assert [e0][..0] == [] && [e0, e1][..1] == [e0] && [e0, e1, e2][..2] == [e0, e1];
    assert Process(3, [e0]) == Run([e0], 1, [Accepted]);
    assert Process(3, [e0, e1]) == Run([e0, e1], 2, [Accepted, Accepted]);
  }

  /** The component labels along the triangle. */
  lemma TriangleLabels()
    ensures InRange([Edge(0, 1, 1), Edge(1, 2, 1), Edge(0, 2, 1)], 3)
    ensures InRange([Edge(0, 1, 1)], 3) && InRange([Edge(0, 1, 1), Edge(1, 2, 1)], 3)
    ensures Components(3, []) == [0, 1, 2]
    ensures Components(3, [Edge(0, 1, 1)]) == [0, 0, 2]
    ensures Components(3, [Edge(0, 1, 1), Edge(1, 2, 1)]) == [0, 0, 0]
  {
    var e0, e1 := Edge(0, 1, 1), Edge(1, 2, 1);
    assert [e0][..0] == [] && [e0, e1][..1] == [e0];
    assert Components(3, []) == [0, 1, 2];
    assert Components(3, [e0]) == [0, 0, 2];
  }

  /** Two disjoint edges of weight 5 on four vertices: the sort keeps their
      order ... */
  lemma TieSort()
    ensures SortByWeight([Edge(0, 1, 5), Edge(2, 3, 5)]) == [Edge(0, 1, 5), Edge(2, 3, 5)]
  {
    var es := [Edge(0, 1, 5), Edge(2, 3, 5)];
    assert es[..1] == [es[0]];
    assert [es[0]][..0] == [];
    assert SortByWeight([es[0]]) == [es[0]];
  }

  /** ... and both are accepted, in that order. */
  lemma TieRun()
    ensures InRange([Edge(0, 1, 5), Edge(2, 3, 5)], 4)
    ensures Process(4, [Edge(0, 1, 5), Edge(2, 3, 5)]) ==
            Run([Edge(0, 1, 5), Edge(2, 3, 5)], 10, [Accepted, Accepted])
  {
    var e0, e1 := Edge(0, 1, 5), Edge(2, 3, 5);
    TieLabels();
    assert [e0][..0] == [] && [e0, e1][..1] == [e0];
    assert Process(4, [e0]) == Run([e0], 5, [Accepted]);
  }

  lemma TieLabels()
    ensures InRange([Edge(0, 1, 5), Edge(2, 3, 5)], 4) && InRange([Edge(0, 1, 5)], 4)
    ensures Components(4, []) == [0, 1, 2, 3]
    ensures Components(4, [Edge(0, 1, 5)]) == [0, 0, 2, 3]
  {
    var e0 := Edge(0, 1, 5);
    assert [e0][..0] == [];
    assert Components(4, []) == [0, 1, 2, 3];
  }
}
