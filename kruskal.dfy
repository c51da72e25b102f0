/**
  The decision loop of KruskalMST: sort the edges by weight, start from
  singleton sets, and take each edge whose endpoints lie in different sets,
  adding its weight to the total and merging the two sets.  `Process` is the
  reference run of that loop over an already sorted list, deciding with the
  naive connectivity of `Graph.Components` instead of union-find; the method
  KruskalMST is proved to make the same decisions with the union-find arrays.
 */
module Kruskal {
  import opened Graph
  import opened EdgeSort
  import opened UnionFind

  /** What happens to an edge: it joins the tree, or it would close a cycle. */
  datatype Decision = Accepted | RejectedCycle

  /** The tree so far, its weight, and one decision per edge seen. */
  datatype Run = Run(mst: seq<Edge>, weight: int, trace: seq<Decision>)

  /** The loop over `es` in order, starting from no edges and weight 0. */
  function Process(n: nat, es: seq<Edge>): (r: Run)
    requires InRange(es, n)
    ensures |r.trace| == |es| && |r.mst| <= |es|
    ensures InRange(r.mst, n)
    decreases |es|
  {
    if es == [] then Run([], 0, [])
    else
      InRangePrefix(es, n, |es| - 1);
      var prev := Process(n, es[..|es|-1]);
      var e := es[|es|-1];
      if Connected(n, prev.mst, e.u, e.v) then
        Run(prev.mst, prev.weight, prev.trace + [RejectedCycle])
      else
        Run(prev.mst + [e], prev.weight + e.w, prev.trace + [Accepted])
  }

  /** The edges of `es` whose decision is Accepted, in order. */
  function Select(es: seq<Edge>, ds: seq<Decision>): seq<Edge>
    requires |ds| == |es|
  {
    if es == [] then []
    else Select(es[..|es|-1], ds[..|ds|-1]) + (if ds[|ds|-1] == Accepted then [es[|es|-1]] else [])
  }

  /** One more edge of the loop: Process on the prefix es[..i+1] in terms of
      Process on es[..i]. */
  lemma ProcessStep(n: nat, es: seq<Edge>, i: nat)
    requires InRange(es, n) && i < |es|
    ensures InRange(es[..i], n) && InRange(es[..i+1], n)
    ensures var r := Process(n, es[..i]);
            Process(n, es[..i+1]) ==
              if Connected(n, r.mst, es[i].u, es[i].v) then Run(r.mst, r.weight, r.trace + [RejectedCycle])
              else Run(r.mst + [es[i]], r.weight + es[i].w, r.trace + [Accepted])
  {
    InRangePrefix(es, n, i);
    InRangePrefix(es, n, i + 1);
    assert es[..i+1][..i] == es[..i];
  }

  /** The running total is the sum of the weights of the accepted edges. */
  lemma {:induction false} ProcessWeight(n: nat, es: seq<Edge>)
    requires InRange(es, n)
    ensures Process(n, es).weight == TotalWeight(Process(n, es).mst)
    decreases |es|
  {
    if es != [] {
      var m := |es| - 1;
      InRangePrefix(es, n, m);
      ProcessWeight(n, es[..m]);
      TotalWeightSnoc(Process(n, es[..m]).mst, es[m]);
    }
  }

  /** The tree is the subsequence of `es` picked out by the Accepted decisions. */
  lemma {:induction false} ProcessSelect(n: nat, es: seq<Edge>)
    requires InRange(es, n)
    ensures Process(n, es).mst == Select(es, Process(n, es).trace)
    decreases |es|
  {
    if es != [] {
      var m := |es| - 1;
      InRangePrefix(es, n, m);
      ProcessSelect(n, es[..m]);
      var t := Process(n, es).trace;
      assert t[..m] == Process(n, es[..m]).trace;
    }
  }

  /** The trace of a prefix is the prefix of the trace: a decision, once
      taken, is never revised. */
  lemma ProcessPrefix(n: nat, es: seq<Edge>, j: nat)
    requires InRange(es, n) && j <= |es|
    ensures InRange(es[..j], n)
    ensures Process(n, es).trace[..j] == Process(n, es[..j]).trace
  {
    InRangePrefix(es, n, j);
    var ts := seq(|es| + 1, i requires 0 <= i <= |es| => InRangePrefix(es, n, i); Process(n, es[..i]).trace);
    forall i | 0 <= i <= |es| ensures |ts[i]| == i {
      InRangePrefix(es, n, i);
    }
    forall i | 0 <= i < |es| ensures ts[i+1][..i] == ts[i] {
      ProcessTraceStep(n, es, i);
    }
    ExtendingPrefixes(ts, j, |es|);
    assert es[..|es|] == es;
  }

  /** The trace of es[..i+1] extends the trace of es[..i]. */
  lemma ProcessTraceStep(n: nat, es: seq<Edge>, i: nat)
    requires InRange(es, n) && i < |es|
    ensures InRange(es[..i], n) && InRange(es[..i+1], n)
    ensures Process(n, es[..i+1]).trace[..i] == Process(n, es[..i]).trace
  {
    ProcessStep(n, es, i);
  }

  /** In a chain of traces, each one decision longer than the last and
      extending it, every trace extends all the earlier ones. */
  lemma {:induction false} ExtendingPrefixes(ts: seq<seq<Decision>>, j: nat, k: nat)
    requires j <= k < |ts|
    requires forall i :: 0 <= i < |ts| ==> |ts[i]| == i
    requires forall i :: 0 <= i < |ts| - 1 ==> ts[i+1][..i] == ts[i]
    ensures ts[k][..j] == ts[j]
    decreases k
  {
    if j < k {
      ExtendingPrefixes(ts, j, k - 1);
      assert ts[k][..k-1] == ts[k-1];
      assert ts[k][..k-1][..j] == ts[k][..j];
    } else {
      assert |ts[k]| == k;
    }
  }

  /** An edge is accepted exactly when its endpoints are not yet connected by
      the edges accepted before it. */
  lemma ProcessDecision(n: nat, es: seq<Edge>, k: nat)
    requires InRange(es, n) && k < |es|
    ensures InRange(es[..k], n)
    ensures Process(n, es).trace[k] == Accepted <==>
            !Connected(n, Process(n, es[..k]).mst, es[k].u, es[k].v)
  {
    ProcessPrefix(n, es, k + 1);
    ProcessStep(n, es, k);
    var t := Process(n, es[..k]).trace;
    assert Process(n, es).trace[k] == Process(n, es).trace[..k+1][k];
    assert |t| == k;
  }

  /** What a decision does to the tree and the total: an accepted edge is
      appended and its weight added; a rejected edge changes neither. */
  lemma ProcessDecisionEffect(n: nat, es: seq<Edge>, k: nat)
    requires InRange(es, n) && k < |es|
    ensures InRange(es[..k], n) && InRange(es[..k+1], n)
    ensures var before, after := Process(n, es[..k]), Process(n, es[..k+1]);
            if Process(n, es).trace[k] == Accepted
            then after.mst == before.mst + [es[k]] && after.weight == before.weight + es[k].w
            else after.mst == before.mst && after.weight == before.weight
  {
    ProcessDecision(n, es, k);
    ProcessStep(n, es, k);
  }

  /** The accepted edges form a forest: no accepted edge closes a cycle. */
  lemma {:induction false} ProcessForest(n: nat, es: seq<Edge>)
    requires InRange(es, n)
    ensures IsForest(n, Process(n, es).mst)
    decreases |es|
  {
    if es != [] {
      var m := |es| - 1;
      InRangePrefix(es, n, m);
      ProcessForest(n, es[..m]);
      var mst := Process(n, es[..m]).mst;
      var e := es[m];
      if !Connected(n, mst, e.u, e.v) {
        assert (mst + [e])[..|mst|] == mst;
        assert (mst + [e])[|mst|] == e;
      }
    }
  }

  /** The accepted edges connect exactly what the whole edge list connects:
      the result spans every connected component of the input graph. */
  lemma {:induction false} ProcessSpans(n: nat, es: seq<Edge>)
    requires InRange(es, n)
    ensures forall x, y :: 0 <= x < n && 0 <= y < n ==>
              (Connected(n, Process(n, es).mst, x, y) <==> Connected(n, es, x, y))
    decreases |es|
  {
    if es != [] {
      var m := |es| - 1;
      var es' := es[..m];
      var e := es[m];
      assert es == es' + [e];
      InRangePrefix(es, n, m);
      ProcessSpans(n, es');
      var mst := Process(n, es').mst;
      forall x, y | 0 <= x < n && 0 <= y < n
        ensures Connected(n, Process(n, es).mst, x, y) <==> Connected(n, es, x, y)
      {
        ConnectedAppend(n, es', e, x, y);
        if !Connected(n, mst, e.u, e.v) {
          ConnectedAppend(n, mst, e, x, y);
        }
      }
    }
  }

  /** For a graph with k connected components, exactly n - k edges are
      accepted; in particular at most n - 1 when n >= 1. */
  lemma ProcessSize(n: nat, es: seq<Edge>)
    requires InRange(es, n)
    ensures |Process(n, es).mst| + ComponentCount(n, es) == n
    ensures n >= 1 ==> |Process(n, es).mst| <= n - 1
  {
    var mst := Process(n, es).mst;
    ProcessForest(n, es);
    ForestCount(n, mst);
    ProcessSpans(n, es);
    assert SamePartition(Components(n, mst), Components(n, es)) by {
      forall x, y | 0 <= x < n && 0 <= y < n
        ensures Components(n, mst)[x] == Components(n, mst)[y] <==> Components(n, es)[x] == Components(n, es)[y]
      {
        assert Connected(n, mst, x, y) <==> Connected(n, es, x, y);
      }
    }
    SamePartitionCount(Components(n, mst), Components(n, es));
    if n >= 1 {
      ForestSize(n, mst);
    }
  }

  /** The roots of the union-find arrays induce the partition of the tree so far. */
  ghost predicate Mirrors(n: nat, f: Forest, mst: seq<Edge>)
    requires Valid(f) && |f.parent| == n && InRange(mst, n)
  {
    forall x, y :: 0 <= x < n && 0 <= y < n ==> (SameSet(f, x, y) <==> Connected(n, mst, x, y))
  }

  /** Singleton sets mirror the empty tree. */
  lemma MirrorsInit(n: nat)
    ensures Mirrors(n, Singletons(n), [])
  {
    var f := Singletons(n);
    forall x, y | 0 <= x < n && 0 <= y < n ensures SameSet(f, x, y) <==> Connected(n, [], x, y) {
      assert Root(f, x) == x && Root(f, y) == y;
    }
  }

  /** The state after the loop body for one edge (u, v): both finds, then
      the union when the roots differed. */
  function AfterEdge(f: Forest, u: nat, v: nat): (g: Forest)
    requires Valid(f) && u < |f.parent| && v < |f.parent|
    ensures Valid(g) && |g.parent| == |f.parent| && |g.rank| == |f.rank|
  {
    UnionValid(FindBoth(f, u, v), u, v);
    if SameSet(f, u, v) then FindBoth(f, u, v) else Union(FindBoth(f, u, v), u, v)
  }

  /** Whether or not the edge is accepted, the loop body leaves the arrays
      exactly as `unionSets(u, v)` alone would: a rejected edge gets only the
      two lookups, which are all `unionSets` does then, and an accepted edge
      gets lookups that the ones inside `unionSets` repeat without effect. */
  lemma AfterEdgeIsUnion(f: Forest, u: nat, v: nat)
    requires Valid(f) && u < |f.parent| && v < |f.parent|
    ensures AfterEdge(f, u, v) == Union(f, u, v)
  {
    if SameSet(f, u, v) {
      UnionSameSet(f, u, v);
    } else {
      UnionAfterFinds(f, u, v);
    }
  }

  /** The body of the loop for one edge (u, v): the test
      `findParent(u) != findParent(v)` and, when it holds, `unionSets(u, v)`.
      Returns whether u and v were in different sets. */
  method JoinIfApart(u: nat, v: nat, parent: array<nat>, rank: array<nat>) returns (apart: bool)
    requires parent != rank
    requires Valid(Forest(parent[..], rank[..])) && u < parent.Length && v < parent.Length
    modifies parent, rank
    ensures apart <==> !SameSet(Forest(old(parent[..]), old(rank[..])), u, v)
    ensures Forest(parent[..], rank[..]) == AfterEdge(Forest(old(parent[..]), old(rank[..])), u, v)
    ensures Forest(parent[..], rank[..]) == Union(Forest(old(parent[..]), old(rank[..])), u, v)
  {
    ghost var f := Forest(parent[..], rank[..]);
    UnionFacts(f, u, v);
    AfterEdgeIsUnion(f, u, v);
    var ru := FindParent(u, parent, rank[..]);
    var rv := FindParent(v, parent, rank[..]);
    assert Forest(parent[..], rank[..]) == FindBoth(f, u, v);
    apart := ru != rv;
    if apart {
      UnionSets(u, v, parent, rank);
    }
  }

  /** One edge of the loop keeps the mirror between the sets and the tree:
      the union-find test agrees with connectivity in the tree, and after
      the step the sets are the components of the tree with the edge added
      exactly when it was accepted. */
  lemma AfterEdgeMirrors(n: nat, f: Forest, mst: seq<Edge>, e: Edge)
    requires Valid(f) && |f.parent| == n && InRange(mst, n)
    requires 0 <= e.u < n && 0 <= e.v < n
    requires Mirrors(n, f, mst)
    ensures SameSet(f, e.u, e.v) <==> Connected(n, mst, e.u, e.v)
    ensures InRange(mst + [e], n)
    ensures Mirrors(n, AfterEdge(f, e.u, e.v), if SameSet(f, e.u, e.v) then mst else mst + [e])
  {
    assert InRange(mst + [e], n) by {
      forall k | 0 <= k < |mst| + 1 ensures 0 <= (mst + [e])[k].u < n && 0 <= (mst + [e])[k].v < n {
        if k < |mst| { assert (mst + [e])[k] == mst[k]; }
      }
    }
    AfterEdgeIsUnion(f, e.u, e.v);
    UnionValid(f, e.u, e.v);
    if SameSet(f, e.u, e.v) {
      MirrorsKept(n, f, mst, e);
    } else {
      MirrorsJoined(n, f, mst, e);
    }
  }

  /** u and v already together: unionSets keeps every set. */
  lemma MirrorsKept(n: nat, f: Forest, mst: seq<Edge>, e: Edge)
    requires Valid(f) && |f.parent| == n && InRange(mst, n)
    requires 0 <= e.u < n && 0 <= e.v < n && SameSet(f, e.u, e.v)
    requires Mirrors(n, f, mst)
    ensures Valid(Union(f, e.u, e.v))
    ensures Mirrors(n, Union(f, e.u, e.v), mst)
  {
    UnionMerges(f, e.u, e.v);
    var g := Union(f, e.u, e.v);
    forall x, y | 0 <= x < n && 0 <= y < n ensures SameSet(g, x, y) <==> Connected(n, mst, x, y) {
      assert SameSet(f, x, y) <==> Connected(n, mst, x, y);
    }
  }

  /** u and v apart: unionSets merges their sets, as the edge merges their
      components in the tree. */
  lemma MirrorsJoined(n: nat, f: Forest, mst: seq<Edge>, e: Edge)
    requires Valid(f) && |f.parent| == n && InRange(mst, n) && InRange(mst + [e], n)
    requires 0 <= e.u < n && 0 <= e.v < n
    requires Mirrors(n, f, mst)
    ensures Valid(Union(f, e.u, e.v))
    ensures Mirrors(n, Union(f, e.u, e.v), mst + [e])
  {
    UnionMerges(f, e.u, e.v);
    var g := Union(f, e.u, e.v);
    forall x, y | 0 <= x < n && 0 <= y < n ensures SameSet(g, x, y) <==> Connected(n, mst + [e], x, y) {
      assert SameSet(f, x, y) <==> Connected(n, mst, x, y);
      assert SameSet(f, x, e.u) <==> Connected(n, mst, x, e.u);
      assert SameSet(f, x, e.v) <==> Connected(n, mst, x, e.v);
      assert SameSet(f, y, e.u) <==> Connected(n, mst, y, e.u);
      assert SameSet(f, y, e.v) <==> Connected(n, mst, y, e.v);
      ConnectedAppend(n, mst, e, x, y);
    }
  }

  /** The loop invariant after the first i edges of es: the arrays hold a
      valid forest whose sets are the components of the tree built so far,
      and the tree, weight and decisions are those of the reference run. */
  ghost predicate Tracks(n: nat, es: seq<Edge>, i: nat, f: Forest, r: Run)
  {
    i <= |es| && InRange(es, n) && Valid(f) && |f.parent| == n &&
    (InRangePrefix(es, n, i); r == Process(n, es[..i])) &&
    Mirrors(n, f, r.mst)
  }

  /** The reference run after no edge, with singleton sets. */
  lemma TracksInit(n: nat, es: seq<Edge>)
    requires InRange(es, n)
    ensures Tracks(n, es, 0, Singletons(n), Run([], 0, []))
  {
    MirrorsInit(n);
    assert es[..0] == [];
  }

  /** One pass of the loop body keeps the invariant: the state moves to
      AfterEdge and the run takes the decision of the reference run. */
  lemma TracksStep(n: nat, es: seq<Edge>, i: nat, f: Forest, r: Run)
    requires Tracks(n, es, i, f, r) && i < |es|
    ensures 0 <= es[i].u < |f.parent| && 0 <= es[i].v < |f.parent|
    ensures Tracks(n, es, i + 1, AfterEdge(f, es[i].u, es[i].v),
                   if SameSet(f, es[i].u, es[i].v) then Run(r.mst, r.weight, r.trace + [RejectedCycle])
                   else Run(r.mst + [es[i]], r.weight + es[i].w, r.trace + [Accepted]))
  {
    assert es[i] == es[..i+1][i];
    ProcessStep(n, es, i);
    AfterEdgeMirrors(n, f, r.mst, es[i]);
  }

  /** After the last edge the run is the reference run over all of es. */
  lemma TracksDone(n: nat, es: seq<Edge>, f: Forest, r: Run)
    requires Tracks(n, es, |es|, f, r)
    ensures r == Process(n, es)
  {
    assert es[..|es|] == es;
  }

  /** KruskalMST: sorts `edges` in place, stably by weight, then keeps each
      edge whose endpoints are not yet joined.  The tree is a forest taken, in
      order, from the sorted list, with one edge per merge of two components. */
  method KruskalMST(edges: array<Edge>, n: nat) returns (mst: seq<Edge>, mstWeight: int, ghost trace: seq<Decision>)
    requires InRange(edges[..], n)
    modifies edges
    ensures edges[..] == SortByWeight(old(edges[..]))
    ensures Sorted(edges[..]) && multiset(edges[..]) == multiset(old(edges[..]))
    ensures InRange(edges[..], n)
    ensures Run(mst, mstWeight, trace) == Process(n, edges[..])
    ensures mstWeight == TotalWeight(mst)
    ensures mst == Select(edges[..], trace)
    ensures IsForest(n, mst) && |mst| + ComponentCount(n, edges[..]) == n
  {
    SortEdges(edges);
    SortSorted(old(edges[..]));
    SortPermutation(old(edges[..]));
    SortInRange(old(edges[..]), n);
    mst, mstWeight, trace := ScanEdges(edges, n);
    ProcessSelect(n, edges[..]);
    ProcessForest(n, edges[..]);
    ProcessSize(n, edges[..]);
  }

  /** The part of KruskalMST after the sort: parent and rank start as
      singletons, then every edge, in array order, is accepted exactly when
      its endpoints have different roots. */
  method ScanEdges(edges: array<Edge>, n: nat) returns (mst: seq<Edge>, mstWeight: int, ghost trace: seq<Decision>)
    requires InRange(edges[..], n)
    ensures Run(mst, mstWeight, trace) == Process(n, edges[..])
    ensures mstWeight == TotalWeight(mst)
  {
    var parent := new nat[n](i => i);
    var rank := new nat[n](i => 0);
    assert Forest(parent[..], rank[..]) == Singletons(n);
    mst, mstWeight, trace := [], 0, [];
    ghost var es := edges[..];
    TracksInit(n, es);
    var i := 0;
    while i < edges.Length
      invariant 0 <= i <= edges.Length
      invariant parent.Length == n && rank.Length == n
      invariant Tracks(n, es, i, Forest(parent[..], rank[..]), Run(mst, mstWeight, trace))
    {
      var edge := edges[i];
      assert edge == es[i];
      TracksStep(n, es, i, Forest(parent[..], rank[..]), Run(mst, mstWeight, trace));
      var apart := JoinIfApart(edge.u, edge.v, parent, rank);
      if apart {
        mst := mst + [edge];
        mstWeight := mstWeight + edge.w;
        trace := trace + [Accepted];
      } else {
        trace := trace + [RejectedCycle];
      }
      i := i + 1;
    }
    TracksDone(n, es, Forest(parent[..], rank[..]), Run(mst, mstWeight, trace));
    ProcessWeight(n, es);
  }
}
