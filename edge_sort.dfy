/**
  The in-place, stable sort of the edge list by weight that starts
  KruskalMST (`edges.sort(key=lambda wgt: wgt[2])`).  The array method is an
  insertion sort; `SortByWeight` is its specification, and `SortUnique` shows
  that every stable sort by weight (Timsort included) yields that same list.
 */
module EdgeSort {
  import opened Graph

  /** Weights never decrease from left to right. */
  predicate Sorted(s: seq<Edge>)
  {
    forall i, j :: 0 <= i < j < |s| ==> s[i].w <= s[j].w
  }

  /** The edges of `s` whose weight is w, in their order in `s`. */
  function WithWeight(s: seq<Edge>, w: int): seq<Edge>
  {
    if s == [] then []
    else WithWeight(s[..|s|-1], w) + (if s[|s|-1].w == w then [s[|s|-1]] else [])
  }

  /** Puts e just after the last element whose weight is at most e.w. */
  function Insert(s: seq<Edge>, e: Edge): (r: seq<Edge>)
    ensures |r| == |s| + 1
  {
    if s == [] || s[|s|-1].w <= e.w then s + [e]
    else Insert(s[..|s|-1], e) + [s[|s|-1]]
  }

  /** Insertion sort by weight, taking the elements from the left. */
  function SortByWeight(s: seq<Edge>): (r: seq<Edge>)
    ensures |r| == |s|
  {
    if s == [] then [] else Insert(SortByWeight(s[..|s|-1]), s[|s|-1])
  }

  lemma WithWeightSnoc(s: seq<Edge>, e: Edge, w: int)
    ensures WithWeight(s + [e], w) == WithWeight(s, w) + (if e.w == w then [e] else [])
  {
    assert (s + [e])[..|s|] == s;
  }

  lemma {:induction false} InsertSorted(s: seq<Edge>, e: Edge)
    requires Sorted(s)
    ensures Sorted(Insert(s, e))
    ensures forall k :: 0 <= k < |Insert(s, e)| ==> Insert(s, e)[k] == e || Insert(s, e)[k] in s
    decreases |s|
  {
    if s == [] || s[|s|-1].w <= e.w {
    } else {
      var m := |s| - 1;
      InsertSorted(s[..m], e);
      var r := Insert(s[..m], e);
      assert Insert(s, e) == r + [s[m]];
      forall k | 0 <= k < |r| ensures r[k].w <= s[m].w {
        if r[k] != e {
          var j :| 0 <= j < m && s[..m][j] == r[k];
          assert s[j] == r[k];
        }
      }
    }
  }

  lemma {:induction false} InsertMultiset(s: seq<Edge>, e: Edge)
    ensures multiset(Insert(s, e)) == multiset(s) + multiset{e}
    decreases |s|
  {
    if s != [] && s[|s|-1].w > e.w {
      var m := |s| - 1;
      InsertMultiset(s[..m], e);
      assert s == s[..m] + [s[m]];
    }
  }

  /** Insert puts e behind every element of its own weight and keeps the
      relative order of the others. */
  lemma {:induction false} InsertWithWeight(s: seq<Edge>, e: Edge, w: int)
    ensures WithWeight(Insert(s, e), w) == WithWeight(s, w) + (if e.w == w then [e] else [])
    decreases |s|
  {
    if s == [] || s[|s|-1].w <= e.w {
      WithWeightSnoc(s, e, w);
    } else {
      var m := |s| - 1;
      InsertWithWeight(s[..m], e, w);
      WithWeightSnoc(Insert(s[..m], e), s[m], w);
      assert s == s[..m] + [s[m]];
      WithWeightSnoc(s[..m], s[m], w);
    }
  }

  /** The sorted list is in non-decreasing weight order. */
  lemma {:induction false} SortSorted(s: seq<Edge>)
    ensures Sorted(SortByWeight(s))
    decreases |s|
  {
    if s != [] {
      SortSorted(s[..|s|-1]);
      InsertSorted(SortByWeight(s[..|s|-1]), s[|s|-1]);
    }
  }

  /** The sorted list is a permutation of the input. */
  lemma {:induction false} SortPermutation(s: seq<Edge>)
    ensures multiset(SortByWeight(s)) == multiset(s)
    decreases |s|
  {
    if s != [] {
      var m := |s| - 1;
      SortPermutation(s[..m]);
      InsertMultiset(SortByWeight(s[..m]), s[m]);
      assert s == s[..m] + [s[m]];
    }
  }

  /** Stability: edges of equal weight keep their input order. */
  lemma {:induction false} SortStable(s: seq<Edge>, w: int)
    ensures WithWeight(SortByWeight(s), w) == WithWeight(s, w)
    decreases |s|
  {
    if s != [] {
      var m := |s| - 1;
      SortStable(s[..m], w);
      InsertWithWeight(SortByWeight(s[..m]), s[m], w);
    }
  }

  lemma {:induction false} NoneHeavier(s: seq<Edge>, bound: int, w: int)
    requires forall k :: 0 <= k < |s| ==> s[k].w <= bound
    requires bound < w
    ensures WithWeight(s, w) == []
    decreases |s|
  {
    if s != [] {
      NoneHeavier(s[..|s|-1], bound, w);
    }
  }

  lemma NothingLeft(s: seq<Edge>, t: seq<Edge>)
    requires t == [] && forall w :: WithWeight(s, w) == WithWeight(t, w)
    ensures s == []
  {
    if s != [] {
      LastInFilter(s);
      assert false;
    }
  }

  lemma LastInFilter(s: seq<Edge>)
    requires s != []
    ensures WithWeight(s, s[|s|-1].w) != []
  {
    assert WithWeight(s, s[|s|-1].w) == WithWeight(s[..|s|-1], s[|s|-1].w) + [s[|s|-1]];
  }

  /** a and b have the same subsequence of edges of each weight. */
  ghost predicate SameWeightClasses(a: seq<Edge>, b: seq<Edge>)
  {
    forall w :: WithWeight(a, w) == WithWeight(b, w)
  }

  /** A sorted list is determined by its per-weight subsequences. */
  lemma {:induction false} SortedDetermined(a: seq<Edge>, b: seq<Edge>)
    requires Sorted(a) && Sorted(b)
    requires SameWeightClasses(a, b)
    ensures a == b
    decreases |a| + |b|
  {
    if a == [] {
      NothingLeft(b, a);
    } else if b == [] {
      NothingLeft(a, b);
    } else {
      var ma, mb := |a| - 1, |b| - 1;
      LastWeightsAgree(a, b);
      LastsAgree(a, b);
      assert Sorted(a[..ma]) && Sorted(b[..mb]);
      SortedDetermined(a[..ma], b[..mb]);
      assert a == a[..ma] + [a[ma]] && b == b[..mb] + [b[mb]];
    }
  }

  /** Two sorted lists with the same per-weight subsequences end in the same weight. */
  lemma LastWeightsAgree(a: seq<Edge>, b: seq<Edge>)
    requires Sorted(a) && Sorted(b) && a != [] && b != []
    requires SameWeightClasses(a, b)
    ensures a[|a|-1].w == b[|b|-1].w
  {
    var la, lb := a[|a|-1], b[|b|-1];
    if la.w < lb.w {
      HeavierAbsent(a, b);
    } else if lb.w < la.w {
      HeavierAbsent(b, a);
    }
  }

  /** A sorted list has no edge heavier than its last one. */
  lemma HeavierAbsent(a: seq<Edge>, b: seq<Edge>)
    requires Sorted(a) && a != [] && b != [] && a[|a|-1].w < b[|b|-1].w
    ensures WithWeight(a, b[|b|-1].w) != WithWeight(b, b[|b|-1].w)
  {
    var bound := a[|a|-1].w;
    assert forall k :: 0 <= k < |a| ==> a[k].w <= bound by {
      forall k | 0 <= k < |a| ensures a[k].w <= bound {
        if k < |a| - 1 { assert a[k].w <= a[|a|-1].w; }
      }
    }
    NoneHeavier(a, bound, b[|b|-1].w);
    LastInFilter(b);
  }

  /** ... and then in the same edge, and what precedes it has the same
      per-weight subsequences too. */
  lemma LastsAgree(a: seq<Edge>, b: seq<Edge>)
    requires a != [] && b != [] && a[|a|-1].w == b[|b|-1].w
    requires SameWeightClasses(a, b)
    ensures a[|a|-1] == b[|b|-1]
    ensures SameWeightClasses(a[..|a|-1], b[..|b|-1])
  {
    var w0 := a[|a|-1].w;
    assert WithWeight(a, w0) == WithWeight(b, w0);
    LastInBothFilters(a, b);
    var pa, pb := a[..|a|-1], b[..|b|-1];
    forall w ensures WithWeight(pa, w) == WithWeight(pb, w) {
      assert WithWeight(a, w) == WithWeight(b, w);
      if w != w0 {
        DropLastElsewhere(a, b, w);
      }
    }
  }

  lemma LastInBothFilters(a: seq<Edge>, b: seq<Edge>)
    requires a != [] && b != [] && a[|a|-1].w == b[|b|-1].w
    requires WithWeight(a, a[|a|-1].w) == WithWeight(b, a[|a|-1].w)
    ensures a[|a|-1] == b[|b|-1]
    ensures WithWeight(a[..|a|-1], a[|a|-1].w) == WithWeight(b[..|b|-1], a[|a|-1].w)
  {
    var la, lb := a[|a|-1], b[|b|-1];
    var x0, y0 := WithWeight(a[..|a|-1], la.w), WithWeight(b[..|b|-1], la.w);
    assert WithWeight(a, la.w) == x0 + [la];
    assert WithWeight(b, la.w) == y0 + [lb];
    assert |x0| == |y0|;
    assert la == (x0 + [la])[|x0|] == (y0 + [lb])[|y0|] == lb;
    assert x0 == (x0 + [la])[..|x0|] == (y0 + [lb])[..|y0|] == y0;
  }

  lemma DropLastElsewhere(a: seq<Edge>, b: seq<Edge>, w: int)
    requires a != [] && b != [] && a[|a|-1].w != w && b[|b|-1].w != w
    requires WithWeight(a, w) == WithWeight(b, w)
    ensures WithWeight(a[..|a|-1], w) == WithWeight(b[..|b|-1], w)
  {
    assert WithWeight(a, w) == WithWeight(a[..|a|-1], w);
    assert WithWeight(b, w) == WithWeight(b[..|b|-1], w);
  }

  /** Any sorted list that keeps the input order within each weight is
      exactly SortByWeight of the input. */
  lemma SortUnique(s: seq<Edge>, t: seq<Edge>)
    requires Sorted(t)
    requires forall w :: WithWeight(t, w) == WithWeight(s, w)
    ensures t == SortByWeight(s)
  {
    SortSorted(s);
    forall w ensures WithWeight(t, w) == WithWeight(SortByWeight(s), w) {
      SortStable(s, w);
    }
    SortedDetermined(t, SortByWeight(s));
  }

  /** Sorting keeps every endpoint in range. */
  lemma SortInRange(s: seq<Edge>, n: nat)
    requires InRange(s, n)
    ensures InRange(SortByWeight(s), n)
  {
    var t := SortByWeight(s);
    SortPermutation(s);
    forall k | 0 <= k < |t| ensures 0 <= t[k].u < n && 0 <= t[k].v < n {
      assert t[k] in multiset(t);
      assert t[k] in multiset(s);
      var j :| 0 <= j < |s| && s[j] == t[k];
    }
  }

  /** Inserting e into s passes over a suffix s[j..] of edges all heavier
      than e. */
  lemma {:induction false} InsertPastHeavier(s: seq<Edge>, e: Edge, j: nat)
    requires j <= |s|
    requires forall k :: j <= k < |s| ==> s[k].w > e.w
    ensures Insert(s, e) == Insert(s[..j], e) + s[j..]
    decreases |s| - j
  {
    if j == |s| {
      assert s[..j] == s && s[j..] == [];
    } else {
      InsertPastHeavier(s, e, j + 1);
      assert s[..j+1][..j] == s[..j];
      assert s[j..] == [s[j]] + s[j+1..];
    }
  }

  /** Where the shift loop stops, the element goes in. */
  lemma InsertPlaced(s: seq<Edge>, e: Edge, j: nat, b: seq<Edge>)
    requires j <= |s| && |b| == |s| + 1
    requires j == 0 || s[j-1].w <= e.w
    requires Insert(s, e) == Insert(s[..j], e) + s[j..]
    requires forall k :: 0 <= k < j ==> b[k] == s[k]
    requires b[j] == e
    requires forall k :: j < k <= |s| ==> b[k] == s[k-1]
    ensures b == Insert(s, e)
  {
    assert Insert(s[..j], e) == s[..j] + [e];
    var t := s[..j] + [e] + s[j..];
    assert forall k :: 0 <= k < |b| ==> b[k] == t[k];
  }

  /** Inserts a[i] into the sorted prefix a[..i], shifting heavier edges right. */
  method InsertAt(a: array<Edge>, i: nat)
    requires i < a.Length
    modifies a
    ensures a[..i+1] == Insert(old(a[..i]), old(a[i]))
    ensures a[i+1..] == old(a[i+1..])
  {
    ghost var s := a[..i];
    var e := a[i];
    var j := ShiftHeavier(a, i, e);
    a[j] := e;
    InsertPlaced(s, e, j, a[..i+1]);
    assert a[i+1..] == old(a[i+1..]);
  }

  /** The shift loop of InsertAt: moves every edge of a[..i] heavier than e,
      from the right, one place to the right, and returns the hole left. */
  method ShiftHeavier(a: array<Edge>, i: nat, e: Edge) returns (j: nat)
    requires i < a.Length
    modifies a
    ensures j <= i && (j == 0 || old(a[j-1]).w <= e.w)
    ensures forall k :: 0 <= k < j ==> a[k] == old(a[k])
    ensures forall k :: j < k <= i ==> a[k] == old(a[k-1])
    ensures forall k :: i < k < a.Length ==> a[k] == old(a[k])
    ensures Insert(old(a[..i]), e) == Insert(old(a[..i])[..j], e) + old(a[..i])[j..]
  {
    ghost var s := a[..i];
    j := i;
    while j > 0 && a[j-1].w > e.w
      invariant 0 <= j <= i
      invariant forall k :: 0 <= k < j ==> a[k] == s[k]
      invariant forall k :: j < k <= i ==> a[k] == s[k-1]
      invariant forall k :: i < k < a.Length ==> a[k] == old(a[k])
      invariant forall k :: j <= k < i ==> s[k].w > e.w
    {
      a[j] := a[j-1];
      j := j - 1;
    }
    InsertPastHeavier(s, e, j);
  }

  /** Sorting one more element inserts it into the sorted prefix. */
  lemma SortStep(s: seq<Edge>, i: nat)
    requires i < |s|
    ensures SortByWeight(s[..i+1]) == Insert(SortByWeight(s[..i]), s[i])
  {
    assert s[..i+1][..i] == s[..i];
  }

  /** In-place stable sort of `a` by weight (insertion sort). */
  method SortEdges(a: array<Edge>)
    modifies a
    ensures a[..] == SortByWeight(old(a[..]))
  {
    ghost var orig := a[..];
    var i := 0;
    while i < a.Length
      invariant 0 <= i <= a.Length
      invariant a[..i] == SortByWeight(orig[..i])
      invariant a[i..] == orig[i..]
    {
      InsertAt(a, i);
      SortStep(orig, i);
      assert orig[i..][0] == orig[i];
      assert a[i+1..] == orig[i+1..];
      i := i + 1;
    }
    assert orig[..a.Length] == orig;
  }
}
