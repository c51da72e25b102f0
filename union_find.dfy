/**
  Disjoint sets over the vertices 0 .. n-1, as `findParent` and `unionSets`
  keep them: a `parent` array (a vertex is a root exactly when it is its own
  parent) and a `rank` array (union by rank).  `Forest` is the abstract value
  of the two arrays; `Root` follows parent pointers without compressing and is
  the reference answer for a lookup.
 */
module UnionFind {

  datatype Forest = Forest(parent: seq<nat>, rank: seq<nat>)

  /** Largest rank, an upper bound for every rank. */
  function MaxRank(rank: seq<nat>): (m: nat)
    ensures forall x :: 0 <= x < |rank| ==> rank[x] <= m
  {
    if rank == [] then 0
    else
      var m := MaxRank(rank[..|rank|-1]);
      if rank[|rank|-1] > m then rank[|rank|-1] else m
  }

  /** The invariant of the two arrays: pointers stay in range and every
      non-root has a smaller rank than its parent (so the pointers are acyclic). */
  predicate Valid(f: Forest)
  {
    |f.parent| == |f.rank| &&
    (forall x :: 0 <= x < |f.parent| ==> f.parent[x] < |f.parent|) &&
    (forall x :: 0 <= x < |f.parent| && f.parent[x] != x ==> f.rank[x] < f.rank[f.parent[x]])
  }

  /** The state built by `parent = [i for i in range(v)]`, `rank = [0] * v`. */
  function Singletons(n: nat): (f: Forest)
    ensures Valid(f) && |f.parent| == n
    ensures forall x :: 0 <= x < n ==> f.parent[x] == x && f.rank[x] == 0
  {
    Forest(seq(n, x => x), seq(n, x => 0))
  }

  /** The root reached from x by following parent pointers. */
  function Root(f: Forest, x: nat): (r: nat)
    requires Valid(f) && x < |f.parent|
    ensures r < |f.parent| && f.parent[r] == r
    ensures f.rank[x] <= f.rank[r]
    ensures r == x <==> f.parent[x] == x
    decreases MaxRank(f.rank) - f.rank[x]
  {
    if f.parent[x] == x then x else Root(f, f.parent[x])
  }

  /** x and y are in the same set. */
  predicate SameSet(f: Forest, x: nat, y: nat)
    requires Valid(f) && x < |f.parent| && y < |f.parent|
  {
    Root(f, x) == Root(f, y)
  }

  /** x lies on the path of parent pointers from v to its root (both ends included). */
  predicate OnPath(f: Forest, v: nat, x: nat)
    requires Valid(f) && v < |f.parent|
    decreases MaxRank(f.rank) - f.rank[v]
  {
    x == v || (f.parent[v] != v && OnPath(f, f.parent[v], x))
  }

  /** The state after `findParent(v)`: every vertex on v's path points at the root. */
  function Compress(f: Forest, v: nat): (g: Forest)
    requires Valid(f) && v < |f.parent|
    ensures |g.parent| == |f.parent| && g.rank == f.rank
    ensures g.parent[v] == Root(f, v)
  {
    var r := Root(f, v);
    Forest(seq(|f.parent|, x requires 0 <= x < |f.parent| =>
                 if OnPath(f, v, x) then r else f.parent[x]),
           f.rank)
  }

  /** The linking step of `unionSets` on the two roots a (rootU) and b (rootV). */
  function Link(f: Forest, a: nat, b: nat): (g: Forest)
    requires |f.parent| == |f.rank| && a < |f.parent| && b < |f.parent|
    ensures |g.parent| == |g.rank| == |f.parent|
    ensures a == b ==> g == f
    ensures a != b ==> (g.parent == f.parent[b := a] && f.rank[b] <= f.rank[a]) ||
                       (g.parent == f.parent[a := b] && f.rank[a] < f.rank[b])
    ensures forall x :: 0 <= x < |f.rank| && x != a ==> g.rank[x] == f.rank[x]
    ensures g.rank[a] == f.rank[a] || (a != b && f.rank[a] == f.rank[b] && g.rank[a] == f.rank[a] + 1)
  {
    if a == b then f
    else if f.rank[a] > f.rank[b] then Forest(f.parent[b := a], f.rank)
    else if f.rank[a] < f.rank[b] then Forest(f.parent[a := b], f.rank)
    else Forest(f.parent[b := a], f.rank[a := f.rank[a] + 1])
  }

  /** The state after `findParent(u)` and then `findParent(v)`. */
  function FindBoth(f: Forest, u: nat, v: nat): (g: Forest)
    requires Valid(f) && u < |f.parent| && v < |f.parent|
    ensures Valid(g) && |g.parent| == |f.parent| && g.rank == f.rank
  {
    CompressKeepsSets(f, u);
    var f1 := Compress(f, u);
    CompressKeepsSets(f1, v);
    Compress(f1, v)
  }

  /** The state after `unionSets(u, v)`: find u, find v, then link the roots. */
  function Union(f: Forest, u: nat, v: nat): (g: Forest)
    requires Valid(f) && u < |f.parent| && v < |f.parent|
    ensures |g.parent| == |g.rank| == |f.parent|
    ensures forall x :: 0 <= x < |f.rank| && x != Root(f, u) ==> g.rank[x] == f.rank[x]
    ensures g.rank[Root(f, u)] <= f.rank[Root(f, u)] + 1
  {
    CompressKeepsSets(f, u);
    Link(FindBoth(f, u, v), Root(f, u), Root(Compress(f, u), v))
  }

  // ---------------------------------------------------------------------------
  // Lemmas about lookups and path compression

  /** Every vertex on v's path has v's root and at least v's rank. */
  lemma {:induction false} OnPathRoot(f: Forest, v: nat, x: nat)
    requires Valid(f) && v < |f.parent| && x < |f.parent| && OnPath(f, v, x)
    ensures Root(f, x) == Root(f, v) && f.rank[v] <= f.rank[x]
    decreases MaxRank(f.rank) - f.rank[v]
  {
    if x != v {
      OnPathRoot(f, f.parent[v], x);
    }
  }

  /** Only the root of a root's path is the root itself. */
  lemma OnPathAtRoot(f: Forest, v: nat, x: nat)
    requires Valid(f) && v < |f.parent| && f.parent[v] == v
    ensures OnPath(f, v, x) <==> x == v
  {
  }

  /** Looking up a root changes nothing. */
  lemma CompressAtRoot(f: Forest, v: nat)
    requires Valid(f) && v < |f.parent| && f.parent[v] == v
    ensures Root(f, v) == v && Compress(f, v) == f
  {
    var g := Compress(f, v);
    forall x | 0 <= x < |f.parent| ensures g.parent[x] == f.parent[x] {
      OnPathAtRoot(f, v, x);
    }
  }

  /** Path compression keeps the invariant and the root of every vertex. */
  lemma CompressKeepsSets(f: Forest, v: nat)
    requires Valid(f) && v < |f.parent|
    ensures Valid(Compress(f, v))
    ensures forall x :: 0 <= x < |f.parent| ==> Root(Compress(f, v), x) == Root(f, x)
  {
    CompressValid(f, v);
    forall x | 0 <= x < |f.parent| ensures Root(Compress(f, v), x) == Root(f, x) {
      CompressRoot(f, v, x);
    }
  }

  lemma CompressValid(f: Forest, v: nat)
    requires Valid(f) && v < |f.parent|
    ensures Valid(Compress(f, v))
  {
    var g := Compress(f, v);
    var r := Root(f, v);
    forall x | 0 <= x < |f.parent| && g.parent[x] != x
      ensures g.rank[x] < g.rank[g.parent[x]]
    {
      if OnPath(f, v, x) {
        OnPathRoot(f, v, x);
        assert f.parent[x] != x;
        assert Root(f, x) == Root(f, f.parent[x]);
      }
    }
  }

  lemma {:induction false} CompressRoot(f: Forest, v: nat, x: nat)
    requires Valid(f) && v < |f.parent| && x < |f.parent|
    requires Valid(Compress(f, v))
    ensures Root(Compress(f, v), x) == Root(f, x)
    decreases MaxRank(f.rank) - f.rank[x]
  {
    var g := Compress(f, v);
    var r := Root(f, v);
    OnPathRoot(f, v, v);
    assert OnPath(f, v, r) by { PathReachesRoot(f, v); }
    assert g.parent[r] == r;
    if OnPath(f, v, x) {
      OnPathRoot(f, v, x);
      assert g.parent[x] == r;
      if x != r {
        assert Root(g, x) == Root(g, r);
      }
    } else if f.parent[x] != x {
      CompressRoot(f, v, f.parent[x]);
    }
  }

  /** The root of v lies on v's path. */
  lemma {:induction false} PathReachesRoot(f: Forest, v: nat)
    requires Valid(f) && v < |f.parent|
    ensures OnPath(f, v, Root(f, v))
    decreases MaxRank(f.rank) - f.rank[v]
  {
    if f.parent[v] != v {
      PathReachesRoot(f, f.parent[v]);
    }
  }

  /** Compressing v's path is compressing its parent's path and then
      repointing v itself, as the recursive `findParent` does. */
  lemma CompressStep(f: Forest, v: nat)
    requires Valid(f) && v < |f.parent| && f.parent[v] != v
    ensures Compress(f, v).parent == Compress(f, f.parent[v]).parent[v := Root(f, v)]
  {
  }

  /** `findParent(v)` rewrites only the entries on v's path, each to the
      vertex's own root; every other entry stays as it was. */
  lemma CompressRewritesPath(f: Forest, v: nat)
    requires Valid(f) && v < |f.parent|
    ensures forall x :: 0 <= x < |f.parent| ==>
              Compress(f, v).parent[x] == f.parent[x] ||
              (OnPath(f, v, x) && Compress(f, v).parent[x] == Root(f, x))
  {
    forall x | 0 <= x < |f.parent| && OnPath(f, v, x)
      ensures Compress(f, v).parent[x] == Root(f, x)
    {
      OnPathRoot(f, v, x);
    }
  }

  /** A root stays a root under path compression. */
  lemma CompressKeepsRoot(f: Forest, v: nat, r: nat)
    requires Valid(f) && v < |f.parent| && r < |f.parent| && f.parent[r] == r
    ensures Compress(f, v).parent[r] == r
  {
    if OnPath(f, v, r) {
      OnPathRoot(f, v, r);
    }
  }

  /** When v's parent is already a root, `findParent(v)` writes nothing new. */
  lemma CompressFlat(f: Forest, v: nat)
    requires Valid(f) && v < |f.parent| && f.parent[f.parent[v]] == f.parent[v]
    ensures Compress(f, v) == f
  {
    var p := f.parent[v];
    if p != v {
      OnPathAtRoot(f, p, p);
      forall x | 0 <= x < |f.parent| ensures Compress(f, v).parent[x] == f.parent[x] {
        OnPathAtRoot(f, p, x);
      }
    } else {
      CompressAtRoot(f, v);
    }
  }

  /** After lookups of u and v, looking both up again changes nothing: the
      two lookups at the start of `unionSets` leave the arrays as the loop's
      own lookups left them. */
  lemma FindBothAgain(f: Forest, u: nat, v: nat)
    requires Valid(f) && u < |f.parent| && v < |f.parent|
    ensures FindBoth(FindBoth(f, u, v), u, v) == FindBoth(f, u, v)
  {
    var f1 := Compress(f, u);
    CompressKeepsSets(f, u);
    var f2 := Compress(f1, v);
    CompressKeepsSets(f1, v);
    var r := Root(f1, v);
    PathReachesRoot(f1, v);
    CompressKeepsRoot(f1, v, r);
    CompressKeepsRoot(f1, v, Root(f, u));
    assert f2 == FindBoth(f, u, v);
    if OnPath(f1, v, u) {
      assert f2.parent[u] == r;
    } else {
      PathReachesRoot(f, u);
      assert f1.parent[u] == Root(f, u);
      assert f2.parent[u] == Root(f, u);
    }
    CompressFlat(f2, u);
    assert f2.parent[v] == r;
    CompressFlat(f2, v);
  }

  /** `unionSets` on the state left by the loop's two lookups is `unionSets`
      on the state before them. */
  lemma UnionAfterFinds(f: Forest, u: nat, v: nat)
    requires Valid(f) && u < |f.parent| && v < |f.parent|
    ensures Union(FindBoth(f, u, v), u, v) == Union(f, u, v)
  {
    var f2 := FindBoth(f, u, v);
    UnionFacts(f, u, v);
    UnionFacts(f2, u, v);
    FindBothAgain(f, u, v);
  }

  // ---------------------------------------------------------------------------
  // Lemmas about union

  /** Pointing root c at root t moves exactly c's set under t. */
  lemma {:induction false} AttachRoot(f: Forest, g: Forest, c: nat, t: nat, x: nat)
    requires Valid(f) && Valid(g) && |g.parent| == |f.parent|
    requires c < |f.parent| && t < |f.parent| && c != t
    requires f.parent[c] == c && f.parent[t] == t
    requires g.parent == f.parent[c := t]
    requires x < |f.parent|
    ensures Root(g, x) == if Root(f, x) == c then t else Root(f, x)
    decreases MaxRank(f.rank) - f.rank[x]
  {
    if f.parent[x] != x {
      AttachRoot(f, g, c, t, f.parent[x]);
    } else if x == c {
      assert Root(g, t) == t;
    }
  }

  /** Linking two roots keeps the invariant; the union-by-rank choice is what
      preserves "a parent outranks its child". */
  lemma LinkValid(f: Forest, a: nat, b: nat)
    requires Valid(f) && a < |f.parent| && b < |f.parent|
    requires f.parent[a] == a && f.parent[b] == b
    ensures Valid(Link(f, a, b))
  {
  }

  /** The roots after linking roots a and b: the two sets become one. */
  lemma LinkRoots(f: Forest, a: nat, b: nat, x: nat)
    requires Valid(f) && a < |f.parent| && b < |f.parent| && x < |f.parent|
    requires f.parent[a] == a && f.parent[b] == b
    ensures Valid(Link(f, a, b))
    ensures Root(Link(f, a, b), x) ==
            if Root(f, x) == a || Root(f, x) == b then Root(Link(f, a, b), a) else Root(f, x)
    ensures Root(Link(f, a, b), a) == Root(Link(f, a, b), b)
    ensures Root(Link(f, a, b), a) == a || Root(Link(f, a, b), a) == b
  {
    LinkValid(f, a, b);
    var g := Link(f, a, b);
    if a != b {
      if f.rank[a] < f.rank[b] {
        AttachRoot(f, g, a, b, x);
        AttachRoot(f, g, a, b, a);
        AttachRoot(f, g, a, b, b);
      } else {
        AttachRoot(f, g, b, a, x);
        AttachRoot(f, g, b, a, a);
        AttachRoot(f, g, b, a, b);
      }
    }
  }

  /** `unionSets` keeps the invariant. */
  lemma UnionValid(f: Forest, u: nat, v: nat)
    requires Valid(f) && u < |f.parent| && v < |f.parent|
    ensures Valid(Union(f, u, v))
  {
    UnionFacts(f, u, v);
  }

  /** Shared helper: the intermediate states of `unionSets`. */
  lemma UnionFacts(f: Forest, u: nat, v: nat)
    requires Valid(f) && u < |f.parent| && v < |f.parent|
    ensures Valid(Compress(f, u)) && FindBoth(f, u, v) == Compress(Compress(f, u), v)
    ensures Root(Compress(f, u), v) == Root(f, v)
    ensures forall x :: 0 <= x < |f.parent| ==> Root(FindBoth(f, u, v), x) == Root(f, x)
    ensures Union(f, u, v) == Link(FindBoth(f, u, v), Root(f, u), Root(f, v))
    ensures FindBoth(f, u, v).parent[Root(f, u)] == Root(f, u)
    ensures FindBoth(f, u, v).parent[Root(f, v)] == Root(f, v)
    ensures Valid(Union(f, u, v))
  {
    var f1 := Compress(f, u);
    CompressKeepsSets(f, u);
    var f2 := Compress(f1, v);
    CompressKeepsSets(f1, v);
    CompressKeepsRoot(f1, v, Root(f, u));
    CompressKeepsRoot(f1, v, Root(f, v));
    LinkValid(f2, Root(f, u), Root(f, v));
  }

  /** After `unionSets(u, v)`, u and v share a root; two vertices share a root
      exactly when they did before or both were in u's or v's set; every vertex
      outside those two sets keeps its root. */
  lemma UnionMerges(f: Forest, u: nat, v: nat)
    requires Valid(f) && u < |f.parent| && v < |f.parent|
    ensures Valid(Union(f, u, v))
    ensures SameSet(Union(f, u, v), u, v)
    ensures forall x :: 0 <= x < |f.parent| && !SameSet(f, x, u) && !SameSet(f, x, v) ==>
              Root(Union(f, u, v), x) == Root(f, x)
    ensures forall x, y :: 0 <= x < |f.parent| && 0 <= y < |f.parent| ==>
              (SameSet(Union(f, u, v), x, y) <==>
                SameSet(f, x, y) ||
                ((SameSet(f, x, u) || SameSet(f, x, v)) && (SameSet(f, y, u) || SameSet(f, y, v))))
  {
    UnionFacts(f, u, v);
    var f2 := FindBoth(f, u, v);
    var g := Union(f, u, v);
    var a, b := Root(f, u), Root(f, v);
    forall x | 0 <= x < |f.parent|
      ensures Root(g, x) == if Root(f, x) == a || Root(f, x) == b then Root(g, a) else Root(f, x)
    {
      LinkRoots(f2, a, b, x);
    }
    LinkRoots(f2, a, b, a);
    assert Root(f, a) == a && Root(f, b) == b;
    assert Root(f2, a) == a && Root(f2, b) == b;
    assert Root(g, u) == Root(g, a) && Root(g, v) == Root(g, a);
  }

  /** If u and v already share a root, `unionSets` links nothing and leaves
      every rank as it was; only path compression happens. */
  lemma UnionSameSet(f: Forest, u: nat, v: nat)
    requires Valid(f) && u < |f.parent| && v < |f.parent| && SameSet(f, u, v)
    ensures Union(f, u, v).rank == f.rank
    ensures Union(f, u, v) == FindBoth(f, u, v)
  {
    UnionFacts(f, u, v);
  }

  /** Ranks never decrease; one rank grows, by exactly 1 and only at u's root,
      exactly when two different roots of equal rank are merged. */
  lemma UnionRank(f: Forest, u: nat, v: nat)
    requires Valid(f) && u < |f.parent| && v < |f.parent|
    ensures forall x :: 0 <= x < |f.parent| ==>
              Union(f, u, v).rank[x] ==
                if x == Root(f, u) && Root(f, u) != Root(f, v) && f.rank[Root(f, u)] == f.rank[Root(f, v)]
                then f.rank[x] + 1 else f.rank[x]
  {
    UnionFacts(f, u, v);
  }

  // ---------------------------------------------------------------------------
  // The two operations on the arrays

  /** `findParent(v, parent)`: returns v's root and points every vertex of
      v's path straight at it. */
  method FindParent(v: nat, parent: array<nat>, ghost rank: seq<nat>) returns (r: nat)
    requires Valid(Forest(parent[..], rank)) && v < parent.Length
    modifies parent
    ensures r == Root(Forest(old(parent[..]), rank), v)
    ensures parent[..] == Compress(Forest(old(parent[..]), rank), v).parent
    ensures Valid(Forest(parent[..], rank)) && parent[r] == r
    ensures old(parent[v]) == v ==> r == v && parent[..] == old(parent[..])
    decreases MaxRank(rank) - rank[v]
  {
    ghost var f := Forest(parent[..], rank);
    CompressKeepsSets(f, v);
    CompressKeepsRoot(f, v, Root(f, v));
    if v != parent[v] {
      var p := FindParent(parent[v], parent, rank);
      CompressStep(f, v);
      parent[v] := p;
    } else {
      CompressAtRoot(f, v);
    }
    r := parent[v];
  }

  /** `unionSets(u, v, parent, rank)`: union by rank of the sets of u and v. */
  method UnionSets(u: nat, v: nat, parent: array<nat>, rank: array<nat>)
    requires parent != rank
    requires Valid(Forest(parent[..], rank[..])) && u < parent.Length && v < parent.Length
    modifies parent, rank
    ensures Forest(parent[..], rank[..]) == Union(Forest(old(parent[..]), old(rank[..])), u, v)
  {
    ghost var f := Forest(parent[..], rank[..]);
    UnionFacts(f, u, v);
    var rootU := FindParent(u, parent, rank[..]);
    var rootV := FindParent(v, parent, rank[..]);
    ghost var g := Forest(parent[..], rank[..]);
    assert g == FindBoth(f, u, v);
    assert rootU == Root(f, u) && rootV == Root(f, v);
    if rootU != rootV {
      if rank[rootU] > rank[rootV] {
        parent[rootV] := rootU;
      } else if rank[rootU] < rank[rootV] {
        parent[rootU] := rootV;
      } else {
        parent[rootV] := rootU;
        rank[rootU] := rank[rootU] + 1;
      }
    }
  }
}
