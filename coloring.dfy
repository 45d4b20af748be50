/** The colouring rules that the three strategies of GraphHelper share: the neighbour
    query, the first-fit choice of a colour class, and the class array that colouring
    the node positions one after another in array order produces.

    Nodes are identified by their position in the node array; a connection is the pair
    of its two endpoint positions. A class array holds one entry per position: -1 for a
    position not yet coloured, otherwise the index of its palette entry. */
module Coloring {

  /** The endpoints (Element1, Element2) of one connection. */
  type Edge = (int, int)

  /** Every endpoint names a position of a node array of length n. */
  predicate EndpointsIn(edges: seq<Edge>, n: int) {
    forall k :: 0 <= k < |edges| ==> 0 <= edges[k].0 < n && 0 <= edges[k].1 < n
  }

  /** Some connection joins p to q, in either orientation. */
  ghost predicate Adjacent(edges: seq<Edge>, p: int, q: int) {
    exists k :: 0 <= k < |edges| && Joins(edges[k], p, q)
  }

  predicate Joins(e: Edge, p: int, q: int) {
    (e.0 == p && e.1 == q) || (e.1 == p && e.0 == q)
  }

  /** The neighbour list of position p, in connection-list order: the second endpoint of
      every connection whose first endpoint is p, and the first endpoint of every
      connection whose second endpoint is p. A self-loop at p contributes p twice. */
  function Neighbours(edges: seq<Edge>, p: int): seq<int> {
    if edges == [] then []
    else
      var e := edges[|edges| - 1];
      Neighbours(edges[..|edges| - 1], p)
        + (if e.0 == p then [e.1] else [])
        + (if e.1 == p then [e.0] else [])
  }

  /** The list holds q exactly when some connection joins p and q. */
  lemma {:induction false} NeighboursMembership(edges: seq<Edge>, p: int, q: int)
    ensures q in Neighbours(edges, p) <==> Adjacent(edges, p, q)
  {
    if edges != [] {
      var init, last := edges[..|edges| - 1], edges[|edges| - 1];
      NeighboursMembership(init, p, q);
      assert q in Neighbours(edges, p) <==> q in Neighbours(init, p) || Joins(last, p, q);
      if Adjacent(init, p, q) {
        var k :| 0 <= k < |init| && Joins(init[k], p, q);
        assert edges[k] == init[k];
      }
      if Adjacent(edges, p, q) && !Joins(last, p, q) {
        var k :| 0 <= k < |edges| && Joins(edges[k], p, q);
        assert init[k] == edges[k];
      }
    }
  }

  /** The neighbour relation is symmetric. */
  lemma NeighboursSymmetric(edges: seq<Edge>, p: int, q: int)
    ensures q in Neighbours(edges, p) <==> p in Neighbours(edges, q)
  {
    NeighboursMembership(edges, p, q);
    NeighboursMembership(edges, q, p);
  }

  /** With every endpoint in range, every neighbour is a position of the node array. */
  lemma NeighboursInRange(edges: seq<Edge>, n: int, p: int)
    requires EndpointsIn(edges, n)
    ensures forall k :: 0 <= k < |Neighbours(edges, p)| ==> 0 <= Neighbours(edges, p)[k] < n
  {
    forall k | 0 <= k < |Neighbours(edges, p)|
      ensures 0 <= Neighbours(edges, p)[k] < n
    {
      NeighboursMembership(edges, p, Neighbours(edges, p)[k]);
    }
  }

  /** The classes that the positions in `nbrs` hold; a position outside the class array
      reads as uncoloured. */
  function NeighbourClasses(nbrs: seq<int>, classes: seq<int>): (r: seq<int>)
    ensures |r| == |nbrs|
    ensures forall k :: 0 <= k < |nbrs| && 0 <= nbrs[k] < |classes| ==> r[k] == classes[nbrs[k]]
  {
    seq(|nbrs|, k requires 0 <= k < |nbrs| =>
      if 0 <= nbrs[k] < |classes| then classes[nbrs[k]] else -1)
  }

  /** Each of 0 .. m-1 occurs in `used`, so `used` has at least m entries. */
  lemma {:induction false} AllBelowOccur(used: seq<int>, m: nat)
    requires forall v :: 0 <= v < m ==> v in used
    ensures m <= |used|
  {
    if m > 0 {
      assert m - 1 in used;
      var i :| 0 <= i < |used| && used[i] == m - 1;
      var rest := used[..i] + used[i + 1..];
      forall v | 0 <= v < m - 1
        ensures v in rest
      {
        assert v in used;
        var j :| 0 <= j < |used| && used[j] == v;
        if j < i {
          assert rest[j] == v;
        } else {
          assert rest[j - 1] == v;
        }
      }
      AllBelowOccur(rest, m - 1);
    }
  }

  /** The first-fit search from c upwards, given that every class below c is in use. */
  function FirstFitFrom(used: seq<int>, c: nat): (r: nat)
    requires forall v :: 0 <= v < c ==> v in used
    ensures c <= r <= |used|
    ensures r !in used
    ensures forall v :: 0 <= v < r ==> v in used
    decreases |used| - c
  {
    AllBelowOccur(used, c);
    if c !in used then c
    else
      AllBelowOccur(used, c + 1);
      FirstFitFrom(used, c + 1)
  }

  /** First fit: the least class not in use. Every smaller class is in use, so the choice
      never exceeds the number of entries looked at. */
  function FirstFit(used: seq<int>): (r: nat)
    ensures r !in used
    ensures forall v :: 0 <= v < r ==> v in used
    ensures r <= |used|
  {
    FirstFitFrom(used, 0)
  }

  /** Absent from `used` with every smaller class present determines the first fit. */
  lemma FirstFitUnique(used: seq<int>, r: nat)
    requires r !in used
    requires forall v :: 0 <= v < r ==> v in used
    ensures r == FirstFit(used)
  {
  }

  /** The class array after the positions 0 .. k-1 of an array of n nodes have been
      coloured in that order by first fit, starting from all -1: positions before k hold a
      class, the others are still -1. */
  function GreedyPrefix(edges: seq<Edge>, n: nat, k: nat): (c: seq<int>)
    requires k <= n
    ensures |c| == n
    ensures forall j :: 0 <= j < k ==> 0 <= c[j]
    ensures forall j :: k <= j < n ==> c[j] == -1
    decreases k
  {
    if k == 0 then seq(n, _ => -1)
    else
      var prev := GreedyPrefix(edges, n, k - 1);
      prev[k - 1 := FirstFit(NeighbourClasses(Neighbours(edges, k - 1), prev))]
  }

  /** No position receives a class above its neighbour count. */
  lemma {:induction false} GreedyPrefixBoundedByDegree(edges: seq<Edge>, n: nat, k: nat)
    requires k <= n
    ensures forall j :: 0 <= j < k ==> GreedyPrefix(edges, n, k)[j] <= |Neighbours(edges, j)|
    decreases k
  {
    if k > 0 {
      GreedyPrefixBoundedByDegree(edges, n, k - 1);
    }
  }

  /** Once a position is coloured its class never changes. */
  lemma {:induction false} GreedyPrefixStable(edges: seq<Edge>, n: nat, k: nat, m: nat, j: nat)
    requires j < k <= m <= n
    ensures GreedyPrefix(edges, n, m)[j] == GreedyPrefix(edges, n, k)[j]
    decreases m
  {
    if k < m {
      GreedyPrefixStable(edges, n, k, m - 1, j);
    }
  }

  /** The class first fit picks for position i once 0 .. i-1 are coloured is the class
      position i ends with. */
  lemma GreedyPrefixNext(edges: seq<Edge>, n: nat, i: nat, classes: seq<int>)
    requires i < n
    requires classes == GreedyPrefix(edges, n, i)
    ensures FirstFit(NeighbourClasses(Neighbours(edges, i), classes)) == GreedyPrefix(edges, n, n)[i]
  {
    GreedyPrefixStable(edges, n, i + 1, n, i);
  }

  /** No connection between two different positions, both below m, joins two positions of
      the same class. */
  ghost predicate ProperBelow(edges: seq<Edge>, c: seq<int>, m: int)
    requires m <= |c|
  {
    forall k :: (0 <= k < |edges| && edges[k].0 != edges[k].1
                 && 0 <= edges[k].0 < m && 0 <= edges[k].1 < m) ==> c[edges[k].0] != c[edges[k].1]
  }

  /** A proper colouring: no connection between two different positions joins two
      positions of the same class. */
  ghost predicate Proper(edges: seq<Edge>, c: seq<int>)
    requires EndpointsIn(edges, |c|)
  {
    forall k :: 0 <= k < |edges| && edges[k].0 != edges[k].1 ==> c[edges[k].0] != c[edges[k].1]
  }

  /** Colouring positions in array order by first fit keeps the coloured part proper. */
  lemma {:induction false} GreedyPrefixProper(edges: seq<Edge>, n: nat, k: nat)
    requires k <= n
    requires EndpointsIn(edges, n)
    ensures ProperBelow(edges, GreedyPrefix(edges, n, k), k)
    decreases k
  {
    if k > 0 {
      var p := k - 1;
      var prev := GreedyPrefix(edges, n, p);
      GreedyPrefixProper(edges, n, p);
      var nbrs := Neighbours(edges, p);
      var used := NeighbourClasses(nbrs, prev);
      var c := GreedyPrefix(edges, n, k);
      assert c == prev[p := FirstFit(used)];
      NeighboursInRange(edges, n, p);
      forall j | 0 <= j < |edges| && edges[j].0 != edges[j].1
        && 0 <= edges[j].0 < k && 0 <= edges[j].1 < k
        ensures c[edges[j].0] != c[edges[j].1]
      {
        var a, b := edges[j].0, edges[j].1;
        if a == p || b == p {
          var other := if a == p then b else a;
          assert Joins(edges[j], p, other);
          NeighboursMembership(edges, p, other);
          var t :| 0 <= t < |nbrs| && nbrs[t] == other;
          assert used[t] == prev[other];
        }
      }
    }
  }

  /** The class array that colouring every position in array order produces is proper. */
  lemma GreedyProper(edges: seq<Edge>, n: nat)
    requires EndpointsIn(edges, n)
    ensures Proper(edges, GreedyPrefix(edges, n, n))
  {
    GreedyPrefixProper(edges, n, n);
  }

  /** A palette with more entries than any position has neighbours covers every class that
      first fit chooses. */
  lemma PaletteLargerThanDegree(edges: seq<Edge>, n: nat, paletteSize: int)
    requires forall j :: 0 <= j < n ==> |Neighbours(edges, j)| < paletteSize
    ensures forall j :: 0 <= j < n ==> GreedyPrefix(edges, n, n)[j] < paletteSize
  {
    GreedyPrefixBoundedByDegree(edges, n, n);
  }
}
