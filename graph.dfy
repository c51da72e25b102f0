/**
  Weighted undirected edges over the vertices 0 .. n-1, and an independent
  reference notion of connectivity used to state what Kruskal's algorithm
  computes: `Components` labels every vertex by merging, edge after edge, the
  labels of the two endpoints (the naive "quick-find" partition).
 */
module Graph {

  /** An edge (u, v, w) as the source's 3-tuples. */
  datatype Edge = Edge(u: int, v: int, w: int)

  /** Every endpoint is a vertex index in [0, n). */
  predicate InRange(es: seq<Edge>, n: nat)
  {
    forall k :: 0 <= k < |es| ==> 0 <= es[k].u < n && 0 <= es[k].v < n
  }

  lemma InRangePrefix(es: seq<Edge>, n: nat, i: nat)
    requires InRange(es, n) && i <= |es|
    ensures InRange(es[..i], n)
  {
    forall k | 0 <= k < i ensures 0 <= es[..i][k].u < n && 0 <= es[..i][k].v < n {
      assert es[..i][k] == es[k];
    }
  }

  /** Sum of the weights of `es`. */
  function TotalWeight(es: seq<Edge>): int
  {
    if es == [] then 0 else TotalWeight(es[..|es|-1]) + es[|es|-1].w
  }

  lemma TotalWeightSnoc(es: seq<Edge>, e: Edge)
    ensures TotalWeight(es + [e]) == TotalWeight(es) + e.w
  {
    assert (es + [e])[..|es|] == es;
  }

  /** Every vertex labelled like `b` takes the label of `a`. */
  function Relabel(c: seq<nat>, a: nat, b: nat): (r: seq<nat>)
    requires a < |c| && b < |c|
    ensures |r| == |c|
    ensures forall x :: 0 <= x < |c| ==> r[x] == (if c[x] == c[b] then c[a] else c[x])
  {
    seq(|c|, x requires 0 <= x < |c| => if c[x] == c[b] then c[a] else c[x])
  }

  /** Component label of every vertex once the edges of `es` are added in order. */
  function Components(n: nat, es: seq<Edge>): (c: seq<nat>)
    requires InRange(es, n)
    ensures |c| == n
    decreases |es|
  {
    if es == [] then seq(n, x => x)
    else
      InRangePrefix(es, n, |es| - 1);
      var e := es[|es|-1];
      Relabel(Components(n, es[..|es|-1]), e.u, e.v)
  }

  /** x and y are joined by a path of edges of `es`. */
  predicate Connected(n: nat, es: seq<Edge>, x: nat, y: nat)
    requires InRange(es, n) && x < n && y < n
  {
    Components(n, es)[x] == Components(n, es)[y]
  }

  /** Each edge, when added, joins two different components: `es` has no cycle. */
  predicate IsForest(n: nat, es: seq<Edge>)
    requires InRange(es, n)
    decreases |es|
  {
    es == [] ||
    (InRangePrefix(es, n, |es| - 1);
     IsForest(n, es[..|es|-1]) &&
     !Connected(n, es[..|es|-1], es[|es|-1].u, es[|es|-1].v))
  }

  /** The set of labels in use. */
  function LabelSet(c: seq<nat>): set<nat>
  {
    set x | 0 <= x < |c| :: c[x]
  }

  /** Number of connected components of the graph (vertices 0 .. n-1, edges es). */
  function ComponentCount(n: nat, es: seq<Edge>): nat
    requires InRange(es, n)
  {
    |LabelSet(Components(n, es))|
  }

  /** Two labellings that induce the same partition. */
  ghost predicate SamePartition(c1: seq<nat>, c2: seq<nat>)
  {
    |c1| == |c2| &&
    forall x, y :: 0 <= x < |c1| && 0 <= y < |c1| ==> (c1[x] == c1[y] <==> c2[x] == c2[y])
  }

  /** Relabelling merges exactly the classes of `a` and `b`. */
  lemma RelabelMerges(c: seq<nat>, a: nat, b: nat, x: nat, y: nat)
    requires a < |c| && b < |c| && x < |c| && y < |c|
    ensures Relabel(c, a, b)[x] == Relabel(c, a, b)[y] <==>
            c[x] == c[y] || ((c[x] == c[a] || c[x] == c[b]) && (c[y] == c[a] || c[y] == c[b]))
  {
  }

  /** Adding edge e connects exactly the pairs already connected and the pairs
      that each touch the component of e.u or of e.v. */
  lemma ConnectedAppend(n: nat, es: seq<Edge>, e: Edge, x: nat, y: nat)
    requires InRange(es + [e], n) && x < n && y < n
    ensures InRange(es, n) && 0 <= e.u < n && 0 <= e.v < n
    ensures Connected(n, es + [e], x, y) <==>
            Connected(n, es, x, y) ||
            ((Connected(n, es, x, e.u) || Connected(n, es, x, e.v)) &&
             (Connected(n, es, y, e.u) || Connected(n, es, y, e.v)))
  {
    assert (es + [e])[..|es|] == es;
    assert (es + [e])[|es|] == e;
    InRangePrefix(es + [e], n, |es|);
    RelabelMerges(Components(n, es), e.u, e.v, x, y);
  }

  /** Every edge of `es` connects its own endpoints. */
  lemma {:induction false} EndpointsConnected(n: nat, es: seq<Edge>, k: nat)
    requires InRange(es, n) && k < |es|
    ensures Connected(n, es, es[k].u, es[k].v)
    decreases |es|
  {
    var m := |es| - 1;
    var es' := es[..m];
    assert es == es' + [es[m]];
    if k < m {
      InRangePrefix(es, n, m);
      EndpointsConnected(n, es', k);
      assert es'[k] == es[k];
      ConnectedAppend(n, es', es[m], es[k].u, es[k].v);
    } else {
      ConnectedAppend(n, es', es[m], es[k].u, es[k].v);
    }
  }

  lemma {:induction false} RangeCard(n: nat)
    ensures |LabelSet(seq(n, x => x))| == n
  {
    if n > 0 {
      RangeCard(n - 1);
      var s := seq(n, x => x);
      var s' := seq(n - 1, x => x);
      assert LabelSet(s) == LabelSet(s') + {n - 1} by {
        forall y | y in LabelSet(s) ensures y in LabelSet(s') + {n - 1} {
          var x :| 0 <= x < n && s[x] == y;
          if x < n - 1 { assert s'[x] == y; }
        }
        forall y | y in LabelSet(s') + {n - 1} ensures y in LabelSet(s) {
          if y == n - 1 { assert s[n - 1] == y; }
          else { var x :| 0 <= x < n - 1 && s'[x] == y; assert s[x] == y; }
        }
      }
      assert n - 1 !in LabelSet(s');
    }
  }

  /** Merging two distinct classes removes exactly one label. */
  lemma RelabelLabelSet(c: seq<nat>, a: nat, b: nat)
    requires a < |c| && b < |c| && c[a] != c[b]
    ensures |LabelSet(Relabel(c, a, b))| == |LabelSet(c)| - 1
  {
    var r := Relabel(c, a, b);
    assert LabelSet(r) == LabelSet(c) - {c[b]} by {
      forall y | y in LabelSet(r) ensures y in LabelSet(c) - {c[b]} {
        var x :| 0 <= x < |r| && r[x] == y;
        if c[x] == c[b] { assert c[a] in LabelSet(c); }
      }
      forall y | y in LabelSet(c) - {c[b]} ensures y in LabelSet(r) {
        var x :| 0 <= x < |c| && c[x] == y;
        assert r[x] == y;
      }
    }
    assert c[b] in LabelSet(c);
  }

  /** An acyclic edge list on n vertices leaves n - |es| components. */
  lemma {:induction false} ForestCount(n: nat, es: seq<Edge>)
    requires InRange(es, n) && IsForest(n, es)
    ensures ComponentCount(n, es) + |es| == n
    decreases |es|
  {
    if es == [] {
      RangeCard(n);
    } else {
      var m := |es| - 1;
      InRangePrefix(es, n, m);
      ForestCount(n, es[..m]);
      RelabelLabelSet(Components(n, es[..m]), es[m].u, es[m].v);
    }
  }

  /** For n >= 1 a forest has at most n - 1 edges. */
  lemma ForestSize(n: nat, es: seq<Edge>)
    requires InRange(es, n) && IsForest(n, es) && n >= 1
    ensures |es| <= n - 1
  {
    ForestCount(n, es);
    assert Components(n, es)[0] in LabelSet(Components(n, es));
  }

  /** The number of classes depends on the partition only, not on the labels. */
  lemma {:induction false} SamePartitionCount(c1: seq<nat>, c2: seq<nat>)
    requires SamePartition(c1, c2)
    ensures |LabelSet(c1)| == |LabelSet(c2)|
    decreases |c1|
  {
    if |c1| > 0 {
      var m := |c1| - 1;
      SamePartitionPrefix(c1, c2);
      SamePartitionCount(c1[..m], c2[..m]);
      LabelSetSnoc(c1);
      LabelSetSnoc(c2);
      SamePartitionLastFresh(c1, c2);
    }
  }

  lemma SamePartitionPrefix(c1: seq<nat>, c2: seq<nat>)
    requires SamePartition(c1, c2) && |c1| > 0
    ensures SamePartition(c1[..|c1|-1], c2[..|c1|-1])
  {
    var m := |c1| - 1;
    var p1, p2 := c1[..m], c2[..m];
    forall x, y | 0 <= x < m && 0 <= y < m ensures (p1[x] == p1[y] <==> p2[x] == p2[y]) {
      assert p1[x] == c1[x] && p1[y] == c1[y] && p2[x] == c2[x] && p2[y] == c2[y];
    }
  }

  /** The last vertex opens a new class in one labelling iff it does in the other. */
  lemma SamePartitionLastFresh(c1: seq<nat>, c2: seq<nat>)
    requires SamePartition(c1, c2) && |c1| > 0
    ensures c1[|c1|-1] in LabelSet(c1[..|c1|-1]) <==> c2[|c1|-1] in LabelSet(c2[..|c1|-1])
  {
    var m := |c1| - 1;
    if c1[m] in LabelSet(c1[..m]) {
      var x :| 0 <= x < m && c1[..m][x] == c1[m];
      assert c1[x] == c1[m];
      assert c2[..m][x] == c2[m];
    }
    if c2[m] in LabelSet(c2[..m]) {
      var x :| 0 <= x < m && c2[..m][x] == c2[m];
      assert c2[x] == c2[m];
      assert c1[..m][x] == c1[m];
    }
  }

  lemma LabelSetSnoc(c: seq<nat>)
    requires |c| > 0
    ensures LabelSet(c) == LabelSet(c[..|c|-1]) + {c[|c|-1]}
  {
    var m := |c| - 1;
    forall y | y in LabelSet(c) ensures y in LabelSet(c[..m]) + {c[m]} {
      var x :| 0 <= x < |c| && c[x] == y;
      if x < m { assert c[..m][x] == y; }
    }
    forall y | y in LabelSet(c[..m]) ensures y in LabelSet(c) {
      var x :| 0 <= x < m && c[..m][x] == y;
      assert c[x] == y;
    }
  }
}
