/** GraphHelper: colours the nodes of a terrain graph from a palette so that connected
    nodes get different palette entries. It works on three collections it does not own:
    the node array (whose Color fields it overwrites, and which WelshPowell reorders), the
    connection list and the palette. Each strategy keeps a local class array, one entry
    per node position, initialised to -1, and colours one node at a time by first fit. */
module GraphHelpers {
  import opened Coloring
  import opened ConnectionEquality

  datatype Vector2f = Vector2f(x: real, y: real)

  datatype LinearColor = LinearColor(r: real, g: real, b: real, a: real)

  datatype TerrainGraphNode = TerrainGraphNode(
    uvCoordinates: Vector2f,
    color: LinearColor,
    intensity: real,
    distanceModifier: real)
  {
    /** operator==: all four fields equal, the colour included. */
    predicate Equals(rhs: TerrainGraphNode) {
      && uvCoordinates == rhs.uvCoordinates
      && color == rhs.color
      && intensity == rhs.intensity
      && distanceModifier == rhs.distanceModifier
    }
  }

  /** Node equality is equality of the whole value, the colour included. */
  lemma NodeEqualsIsValueEquality(a: TerrainGraphNode, b: TerrainGraphNode)
    ensures a.Equals(b) <==> a == b
  {
  }

  /** Overwriting a node's colour can make it stop matching a node it matched before. */
  lemma RecoloringBreaksEquality(a: TerrainGraphNode, c: LinearColor)
    requires c != a.color
    ensures !a.(color := c).Equals(a)
  {
  }

  /** The fields that colouring never changes. */
  function Key(node: TerrainGraphNode): (Vector2f, real, real) {
    (node.uvCoordinates, node.intensity, node.distanceModifier)
  }

  /** No two nodes agree on position, intensity and distance modifier. */
  predicate DistinctKeys(nodes: seq<TerrainGraphNode>) {
    forall i, j :: 0 <= i < j < |nodes| ==> Key(nodes[i]) != Key(nodes[j])
  }

  /** TArray::IndexOfByKey and Algo::IndexOf: the first position holding a node equal to
      `key` under operator==, or INDEX_NONE (-1). */
  function IndexOfByKey(nodes: seq<TerrainGraphNode>, key: TerrainGraphNode): (r: int)
    ensures -1 <= r < |nodes|
    ensures r >= 0 ==> nodes[r].Equals(key) && forall k :: 0 <= k < r ==> !nodes[k].Equals(key)
    ensures r == -1 ==> forall k :: 0 <= k < |nodes| ==> !nodes[k].Equals(key)
  {
    if nodes == [] then -1
    else if nodes[0].Equals(key) then 0
    else
      var r := IndexOfByKey(nodes[1..], key);
      if r == -1 then -1 else r + 1
  }

  /** With distinct keys, looking a node up by value finds its own position. */
  lemma IndexOfOwnPosition(nodes: seq<TerrainGraphNode>, i: int)
    requires DistinctKeys(nodes)
    requires 0 <= i < |nodes|
    ensures IndexOfByKey(nodes, nodes[i]) == i
  {
    var r := IndexOfByKey(nodes, nodes[i]);
    assert nodes[i].Equals(nodes[i]);
  }

  /** `order` lists every position of an array of n elements exactly once. */
  predicate IsPermutation(order: seq<int>, n: int) {
    && |order| == n
    && (forall i :: 0 <= i < n ==> 0 <= order[i] < n)
    && (forall i, j :: 0 <= i < j < n ==> order[i] != order[j])
  }

  /** No two palette entries are the same colour. */
  predicate DistinctPalette(colors: seq<LinearColor>) {
    forall i, j :: 0 <= i < j < |colors| ==> colors[i] != colors[j]
  }

  /** The number of entries of a class list that are not -1. */
  function CountColored(classes: seq<int>): (r: nat)
    ensures r <= |classes|
  {
    if classes == [] then 0
    else CountColored(classes[..|classes| - 1]) + (if classes[|classes| - 1] == -1 then 0 else 1)
  }

  /** The score the DSatur selection gives the node at `position`: -1 when the class array
      holds -1 at the position that value lookup finds for it, otherwise the number of
      entries of its neighbour list whose class is not -1. */
  function DSaturScore(nodes: seq<TerrainGraphNode>, edges: seq<Edge>, classes: seq<int>, position: int): (s: int)
    requires 0 <= position < |nodes| == |classes|
    ensures s >= -1
  {
    assert nodes[position].Equals(nodes[position]);
    var found := IndexOfByKey(nodes, nodes[position]);
    if classes[found] == -1 then -1
    else CountColored(NeighbourClasses(Neighbours(edges, position), classes))
  }

  /** With distinct nodes, a node scores -1 exactly when it is itself uncoloured. */
  lemma DSaturScoreUncolored(nodes: seq<TerrainGraphNode>, edges: seq<Edge>, classes: seq<int>, position: int)
    requires DistinctKeys(nodes)
    requires 0 <= position < |nodes| == |classes|
    ensures DSaturScore(nodes, edges, classes, position) == -1 <==> classes[position] == -1
  {
    IndexOfOwnPosition(nodes, position);
  }

  /** The scores of all positions, in array order. */
  function DSaturScores(nodes: seq<TerrainGraphNode>, edges: seq<Edge>, classes: seq<int>): (r: seq<int>)
    requires |nodes| == |classes|
    ensures |r| == |nodes|
    ensures forall k :: 0 <= k < |r| ==> r[k] == DSaturScore(nodes, edges, classes, k)
  {
    seq(|nodes|, k requires 0 <= k < |nodes| => DSaturScore(nodes, edges, classes, k))
  }

  /** `next` is the first position of least value: the element Algo::MinElementBy picks,
      as it replaces its candidate only on a strictly smaller value. */
  predicate IsFirstMinimum(values: seq<int>, next: int) {
    && 0 <= next < |values|
    && (forall j :: 0 <= j < |values| ==> values[next] <= values[j])
    && (forall j :: 0 <= j < next ==> values[next] < values[j])
  }

  /** While positions 0 .. i-1 are coloured and the rest are not, the first position of
      least score is i: uncoloured nodes score -1 and coloured ones at least 0, so the
      selection follows array order. */
  lemma DSaturSelectsArrayOrder(nodes: seq<TerrainGraphNode>, edges: seq<Edge>, classes: seq<int>, i: nat, next: int)
    requires DistinctKeys(nodes)
    requires i < |nodes|
    requires classes == GreedyPrefix(edges, |nodes|, i)
    requires IsFirstMinimum(DSaturScores(nodes, edges, classes), next)
    ensures next == i
  {
    var scores := DSaturScores(nodes, edges, classes);
    DSaturScoreUncolored(nodes, edges, classes, i);
    DSaturScoreUncolored(nodes, edges, classes, next);
    assert scores[next] <= scores[i] == -1;
  }

  /** The elements of s in reverse order. */
  function Reversed<T>(s: seq<T>): (r: seq<T>)
    ensures |r| == |s|
    ensures forall i :: 0 <= i < |s| ==> r[i] == s[|s| - 1 - i]
  {
    seq(|s|, i requires 0 <= i < |s| => s[|s| - 1 - i])
  }

  /** The reverse of an array of distinct nodes still has distinct nodes. */
  lemma ReversalKeepsDistinct(before: seq<TerrainGraphNode>)
    requires DistinctKeys(before)
    ensures DistinctKeys(Reversed(before))
  {
    var after := Reversed(before);
    forall i, j | 0 <= i < j < |after|
      ensures Key(after[i]) != Key(after[j])
    {
      assert Key(before[|before| - 1 - j]) != Key(before[|before| - 1 - i]);
    }
  }

  /** Sorting into `order` and then reversing keeps the nodes distinct. */
  lemma ReorderKeepsDistinct(before: seq<TerrainGraphNode>, order: seq<int>)
    requires DistinctKeys(before)
    requires IsPermutation(order, |before|)
    ensures DistinctKeys(Reversed(Permuted(before, order)))
  {
    PermutationKeepsDistinct(before, order);
    ReversalKeepsDistinct(Permuted(before, order));
  }

  /** The node array once positions 0 .. i-1, in that order, have taken the palette entry
      of their class; the other positions are as they were. */
  ghost function RecolorPrefix(before: seq<TerrainGraphNode>, palette: seq<LinearColor>, classes: seq<int>, i: int)
    : (r: seq<TerrainGraphNode>)
    requires 0 <= i <= |before| == |classes|
    requires forall k :: 0 <= k < i ==> 0 <= classes[k] < |palette|
    ensures |r| == |before|
    decreases i
  {
    if i == 0 then before
    else
      var prev := RecolorPrefix(before, palette, classes, i - 1);
      prev[i - 1 := prev[i - 1].(color := palette[classes[i - 1]])]
  }

  /** Positions before i carry the palette entry of their class, and nothing else about any
      node changes. */
  lemma {:induction false} RecolorPrefixAt(before: seq<TerrainGraphNode>, palette: seq<LinearColor>, classes: seq<int>, i: int)
    requires 0 <= i <= |before| == |classes|
    requires forall k :: 0 <= k < i ==> 0 <= classes[k] < |palette|
    ensures forall k :: 0 <= k < |before| ==>
      RecolorPrefix(before, palette, classes, i)[k]
        == if k < i then before[k].(color := palette[classes[k]]) else before[k]
    decreases i
  {
    if i > 0 {
      RecolorPrefixAt(before, palette, classes, i - 1);
    }
  }

  /** Every node with the palette entry of its class as its colour. */
  function Recolored(before: seq<TerrainGraphNode>, palette: seq<LinearColor>, classes: seq<int>)
    : (r: seq<TerrainGraphNode>)
    requires |before| == |classes|
    requires forall k :: 0 <= k < |classes| ==> 0 <= classes[k] < |palette|
    ensures |r| == |before|
    ensures forall k :: 0 <= k < |before| ==> r[k] == before[k].(color := palette[classes[k]])
  {
    seq(|before|, k requires 0 <= k < |before| => before[k].(color := palette[classes[k]]))
  }

  /** Colouring every position one after another recolours every node. */
  lemma RecolorPrefixComplete(before: seq<TerrainGraphNode>, palette: seq<LinearColor>, classes: seq<int>)
    requires |before| == |classes|
    requires forall k :: 0 <= k < |classes| ==> 0 <= classes[k] < |palette|
    ensures RecolorPrefix(before, palette, classes, |before|) == Recolored(before, palette, classes)
  {
    RecolorPrefixAt(before, palette, classes, |before|);
  }

  /** Any two different nodes that a connection joins carry different colours. */
  ghost predicate ConnectedColorsDiffer(edges: seq<Edge>, nodes: seq<TerrainGraphNode>)
    requires EndpointsIn(edges, |nodes|)
  {
    forall k :: 0 <= k < |edges| && edges[k].0 != edges[k].1 ==>
      nodes[edges[k].0].color != nodes[edges[k].1].color
  }

  /** A proper class array over a palette of distinct colours gives connected nodes
      different colours. */
  lemma ProperGivesDistinctColors(edges: seq<Edge>, before: seq<TerrainGraphNode>, palette: seq<LinearColor>, classes: seq<int>)
    requires |before| == |classes|
    requires forall k :: 0 <= k < |classes| ==> 0 <= classes[k] < |palette|
    requires EndpointsIn(edges, |classes|)
    requires Proper(edges, classes)
    requires DistinctPalette(palette)
    ensures ConnectedColorsDiffer(edges, Recolored(before, palette, classes))
  {
    var after := Recolored(before, palette, classes);
    forall k | 0 <= k < |edges| && edges[k].0 != edges[k].1
      ensures after[edges[k].0].color != after[edges[k].1].color
    {
      var a, b := edges[k].0, edges[k].1;
      if classes[a] < classes[b] {
        assert palette[classes[a]] != palette[classes[b]];
      } else {
        assert palette[classes[b]] != palette[classes[a]];
      }
    }
  }

  /** Recolouring leaves every key, and so their distinctness, as it was. */
  lemma RecolorKeepsDistinct(before: seq<TerrainGraphNode>, palette: seq<LinearColor>, classes: seq<int>, i: int)
    requires DistinctKeys(before)
    requires 0 <= i <= |before| == |classes|
    requires forall k :: 0 <= k < i ==> 0 <= classes[k] < |palette|
    ensures DistinctKeys(RecolorPrefix(before, palette, classes, i))
  {
    var after := RecolorPrefix(before, palette, classes, i);
    RecolorPrefixAt(before, palette, classes, i);
    forall k | 0 <= k < |after|
      ensures Key(after[k]) == Key(before[k])
    {
    }
  }

  /** The elements of s in the arrangement `order` gives: position i holds s[order[i]]. */
  function Permuted<T>(s: seq<T>, order: seq<int>): (r: seq<T>)
    requires IsPermutation(order, |s|)
    ensures |r| == |s|
    ensures forall i :: 0 <= i < |s| ==> r[i] == s[order[i]]
  {
    seq(|s|, i requires 0 <= i < |s| => s[order[i]])
  }

  /** A permutation of an array of distinct nodes still has distinct nodes. */
  lemma PermutationKeepsDistinct(before: seq<TerrainGraphNode>, order: seq<int>)
    requires DistinctKeys(before)
    requires IsPermutation(order, |before|)
    ensures DistinctKeys(Permuted(before, order))
  {
    var after := Permuted(before, order);
    forall i, j | 0 <= i < j < |after|
      ensures Key(after[i]) != Key(after[j])
    {
      if order[i] < order[j] {
        assert Key(before[order[i]]) != Key(before[order[j]]);
      } else {
        assert Key(before[order[j]]) != Key(before[order[i]]);
      }
    }
  }

  /** The selector EGraphColoringAlgo. */
  datatype GraphColoringAlgo = Greedy | WelshPowell | DSatur

  /** FTerrainGraphConnection, a value struct held inline in the connection array: the
      positions of the two nodes a connection joins. */
  datatype TerrainGraphConnection = TerrainGraphConnection(element1: int, element2: int) {
    /** operator==: same endpoints, in either order. */
    predicate Equals(other: TerrainGraphConnection) {
      SameEndpoints(element1, element2, other.element1, other.element2)
    }

    /** Swap: the struct with its endpoints exchanged, which still compares equal to what
        it was. */
    function Swap(): (c: TerrainGraphConnection)
      ensures c.element1 == element2 && c.element2 == element1
      ensures c.Equals(this) && this.Equals(c)
    {
      TerrainGraphConnection(element2, element1)
    }
  }

  /** Swapping twice restores a graph connection. */
  lemma SwapTwiceRestoresGraphConnection(c: TerrainGraphConnection)
    ensures c.Swap().Swap() == c
  {
  }

  class GraphHelper {
    const nodes: array<TerrainGraphNode>
    const connections: seq<TerrainGraphConnection>
    const colors: seq<LinearColor>

    constructor (nodes: array<TerrainGraphNode>, connections: seq<TerrainGraphConnection>, colors: seq<LinearColor>)
      ensures this.nodes == nodes && this.connections == connections && this.colors == colors
    {
      this.nodes := nodes;
      this.connections := connections;
      this.colors := colors;
    }

    /** The endpoints of the connection list, in list order. */
    function Edges(): (e: seq<Edge>)
      ensures |e| == |connections|
      ensures forall k :: 0 <= k < |e| ==> e[k] == (connections[k].element1, connections[k].element2)
    {
      seq(|connections|, k requires 0 <= k < |connections| =>
        (connections[k].element1, connections[k].element2))
    }

    /** The class array every strategy ends with: first fit over the positions in array
        order. */
    ghost function Classes(): (c: seq<int>)
      ensures |c| == nodes.Length
    {
      GreedyPrefix(Edges(), nodes.Length, nodes.Length)
    }

    /** What colouring demands of its inputs: nodes that value lookup tells apart, every
        endpoint a position of the node array (unless the array is empty, when nothing is
        looked at), and a palette entry for every class first fit picks. */
    ghost predicate Colorable()
      reads nodes
    {
      && DistinctKeys(nodes[..])
      && (nodes.Length > 0 ==> EndpointsIn(Edges(), nodes.Length))
      && forall i :: 0 <= i < nodes.Length ==> Classes()[i] < |colors|
    }

    /** What holds between the rounds of GreedyColoring and DSatur: positions 0 .. i-1 of
        the array that was `before` have been coloured, in array order, and carry the
        palette entry of their class. */
    ghost predicate ColoredUpTo(before: seq<TerrainGraphNode>, colorsList: array<int>, i: int)
      reads nodes, colorsList
    {
      && 0 <= i <= nodes.Length == colorsList.Length == |before|
      && DistinctKeys(before)
      && EndpointsIn(Edges(), nodes.Length)
      && (forall k :: 0 <= k < nodes.Length ==> Classes()[k] < |colors|)
      && colorsList[..] == GreedyPrefix(Edges(), nodes.Length, i)
      && nodes[..] == RecolorPrefix(before, colors, Classes(), i)
    }

    /** Runs the strategy that `algo` names. `order` is the arrangement the sort inside
        WelshPowell leaves the nodes in; the other strategies ignore it. Every node ends
        with the palette entry of its class; WelshPowell first rearranges the nodes. */
    method ColorGraph(algo: GraphColoringAlgo, order: seq<int>)
      requires algo.WelshPowell? ==> IsPermutation(order, nodes.Length)
      requires Colorable()
      modifies nodes
      ensures !algo.WelshPowell? ==> nodes[..] == Recolored(old(nodes[..]), colors, Classes())
      ensures algo.WelshPowell? ==>
        nodes[..] == Recolored(Reversed(Permuted(old(nodes[..]), order)), colors, Classes())
      ensures nodes.Length > 0 ==> Proper(Edges(), Classes())
      ensures nodes.Length > 0 && DistinctPalette(colors) ==> ConnectedColorsDiffer(Edges(), nodes[..])
    {
      ghost var before := nodes[..];
      ghost var start := before;
      match algo {
        case Greedy =>
          GreedyColoring();
        case WelshPowell =>
          start := Reversed(Permuted(before, order));
          WelshPowell(order);
        case DSatur =>
          DSatur();
      }
      RecolorPrefixComplete(start, colors, Classes());
      if nodes.Length > 0 && DistinctPalette(colors) {
        ProperGivesDistinctColors(Edges(), start, colors, Classes());
      }
    }

    /** Colours the nodes in array order. */
    method GreedyColoring()
      requires Colorable()
      modifies nodes
      ensures nodes[..] == RecolorPrefix(old(nodes[..]), colors, Classes(), nodes.Length)
      ensures nodes.Length > 0 ==> Proper(Edges(), Classes())
    {
      if nodes.Length == 0 {
        return;
      }
      var n := nodes.Length;
      ghost var before := nodes[..];
      var colorsList := new int[n](_ => -1);
      for i := 0 to n
        invariant ColoredUpTo(before, colorsList, i)
      {
        ColorPosition(i, colorsList, before);
      }
      GreedyProper(Edges(), n);
    }

    /** One round of GreedyColoring and DSatur once the node at `position` is picked, with
        the positions before it coloured: the node is looked up by value, which finds its
        own position, and coloured; the class array grows by the class it ends with. */
    method ColorPosition(position: int, colorsList: array<int>, ghost before: seq<TerrainGraphNode>)
      requires position < nodes.Length
      requires ColoredUpTo(before, colorsList, position)
      modifies nodes, colorsList
      ensures ColoredUpTo(before, colorsList, position + 1)
    {
      RecolorKeepsDistinct(before, colors, Classes(), position);
      var index := IndexOfByKey(nodes[..], nodes[position]);
      IndexOfOwnPosition(nodes[..], position);
      GreedyPrefixNext(Edges(), nodes.Length, position, colorsList[..]);
      ColorNode(position, index, colorsList);
    }

    /** Reorders the nodes (a sort, then a reversal) and colours them in the new order.
        The connection list is left as it is, so afterwards it joins the nodes now at the
        positions it names. */
    method WelshPowell(order: seq<int>)
      requires IsPermutation(order, nodes.Length)
      requires Colorable()
      modifies nodes
      ensures nodes[..] == RecolorPrefix(Reversed(Permuted(old(nodes[..]), order)), colors, Classes(), nodes.Length)
      ensures nodes.Length > 0 ==> Proper(Edges(), Classes())
    {
      if nodes.Length == 0 {
        return;
      }
      ghost var before := nodes[..];
      SortBy(order);
      Reverse();
      ReorderKeepsDistinct(before, order);
      GreedyColoring();
    }

    /** Algo::SortBy over the nodes. Its key, the neighbour count of whatever position an
        element occupies at the moment it is compared, moves with the elements, so the
        arrangement it produces is taken as the given permutation `order`. */
    method SortBy(order: seq<int>)
      requires IsPermutation(order, nodes.Length)
      modifies nodes
      ensures nodes[..] == Permuted(old(nodes[..]), order)
    {
      var before := nodes[..];
      forall i | 0 <= i < nodes.Length {
        nodes[i] := before[order[i]];
      }
    }

    /** Algo::Reverse over the nodes. */
    method Reverse()
      modifies nodes
      ensures nodes[..] == Reversed(old(nodes[..]))
    {
      var n := nodes.Length;
      var i := 0;
      while i < n / 2
        invariant 0 <= i <= n / 2
        invariant forall k :: 0 <= k < i ==> nodes[k] == old(nodes[n - 1 - k]) && nodes[n - 1 - k] == old(nodes[k])
        invariant forall k :: i <= k < n - i ==> nodes[k] == old(nodes[k])
      {
        nodes[i], nodes[n - 1 - i] := nodes[n - 1 - i], nodes[i];
        i := i + 1;
      }
      assert forall k :: 0 <= k < n ==> nodes[k] == old(nodes[n - 1 - k]);
    }

    /** Colours one node per round, the one of least score; see DSaturScore. */
    method DSatur()
      requires Colorable()
      modifies nodes
      ensures nodes[..] == RecolorPrefix(old(nodes[..]), colors, Classes(), nodes.Length)
      ensures nodes.Length > 0 ==> Proper(Edges(), Classes())
    {
      if nodes.Length == 0 {
        return;
      }
      var n := nodes.Length;
      ghost var before := nodes[..];
      var colorsList := new int[n](_ => -1);
      for i := 0 to n
        invariant ColoredUpTo(before, colorsList, i)
      {
        var nextNode := SelectNext(colorsList, i, before);
        ColorPosition(nextNode, colorsList, before);
      }
      GreedyProper(Edges(), n);
    }

    /** The DSatur selection while positions 0 .. i-1 are coloured: it picks position i. */
    method SelectNext(colorsList: array<int>, ghost i: nat, ghost before: seq<TerrainGraphNode>) returns (next: int)
      requires i < nodes.Length
      requires ColoredUpTo(before, colorsList, i)
      ensures next == i
    {
      RecolorKeepsDistinct(before, colors, Classes(), i);
      next := MinElementByScore(colorsList);
      DSaturSelectsArrayOrder(nodes[..], Edges(), colorsList[..], i, next);
    }

    /** Algo::MinElementBy over the nodes with the DSatur score: the first position of
        least score. */
    method MinElementByScore(colorsList: array<int>) returns (next: int)
      requires 0 < nodes.Length == colorsList.Length
      requires EndpointsIn(Edges(), nodes.Length)
      ensures IsFirstMinimum(DSaturScores(nodes[..], Edges(), colorsList[..]), next)
    {
      ghost var scores := DSaturScores(nodes[..], Edges(), colorsList[..]);
      next := 0;
      var best := Score(0, colorsList);
      // The scores looked at so far, in array order.
      ghost var seen := [best];
      for j := 1 to nodes.Length
        invariant seen == scores[..j]
        invariant 0 <= next < j
        invariant best == seen[next]
        invariant forall k :: 0 <= k < j ==> best <= seen[k]
        invariant forall k :: 0 <= k < next ==> best < seen[k]
      {
        var score := Score(j, colorsList);
        assert scores[..j + 1] == seen + [score];
        seen := seen + [score];
        if score < best {
          next, best := j, score;
        }
      }
      assert scores[..nodes.Length] == scores;
    }

    /** The scoring lambda of the DSatur selection for the node at `position`. */
    method Score(position: int, colorsList: array<int>) returns (score: int)
      requires 0 <= position < nodes.Length == colorsList.Length
      requires EndpointsIn(Edges(), nodes.Length)
      ensures score == DSaturScore(nodes[..], Edges(), colorsList[..], position)
    {
      assert nodes[..][position].Equals(nodes[position]);
      if colorsList[IndexOfByKey(nodes[..], nodes[position])] == -1 {
        return -1;
      }
      var nodeConns := GetConnectedNodes(position);
      NeighboursInRange(Edges(), nodes.Length, position);
      var alreadyColoredNeighborCount := 0;
      for k := 0 to |nodeConns|
        invariant alreadyColoredNeighborCount == CountColored(NeighbourClasses(nodeConns[..k], colorsList[..]))
      {
        assert NeighbourClasses(nodeConns[..k + 1], colorsList[..])
          == NeighbourClasses(nodeConns[..k], colorsList[..]) + [colorsList[nodeConns[k]]];
        if colorsList[nodeConns[k]] != -1 {
          alreadyColoredNeighborCount := alreadyColoredNeighborCount + 1;
        }
      }
      assert nodeConns[..|nodeConns|] == nodeConns;
      score := alreadyColoredNeighborCount;
    }

    /** The neighbour list of the node at `node`: neighbour identity is by position, as the
        source compares element addresses. */
    method GetConnectedNodes(node: int) returns (connected: seq<int>)
      requires EndpointsIn(Edges(), nodes.Length)
      ensures connected == Neighbours(Edges(), node)
    {
      connected := [];
      for k := 0 to |connections|
        invariant connected == Neighbours(Edges()[..k], node)
      {
        var connection := connections[k];
        // &Nodes[Element1] and &Nodes[Element2] are range-checked accesses.
        assert 0 <= connection.element1 < nodes.Length && 0 <= connection.element2 < nodes.Length;
        assert Edges()[..k + 1][..k] == Edges()[..k];
        if connection.element1 == node {
          connected := connected + [connection.element2];
        }
        if connection.element2 == node {
          connected := connected + [connection.element1];
        }
      }
      assert Edges()[..|connections|] == Edges();
    }

    /** Colours the node at `node` by first fit over its neighbours' entries in
        `colorsList`, and records the class and the palette entry at `index`. */
    method ColorNode(node: int, index: int, colorsList: array<int>)
      requires 0 <= index < nodes.Length == colorsList.Length
      requires EndpointsIn(Edges(), nodes.Length)
      requires FirstFit(NeighbourClasses(Neighbours(Edges(), node), colorsList[..])) < |colors|
      modifies nodes, colorsList
      ensures var newColor := FirstFit(NeighbourClasses(Neighbours(Edges(), node), old(colorsList[..])));
        && colorsList[..] == old(colorsList[..])[index := newColor]
        && nodes[..] == old(nodes[..])[index := old(nodes[index]).(color := colors[newColor])]
    {
      var connectedList := GetConnectedNodes(node);
      NeighboursInRange(Edges(), nodes.Length, node);
      var connectedColors := [];
      for k := 0 to |connectedList|
        invariant connectedColors == NeighbourClasses(connectedList[..k], colorsList[..])
      {
        connectedColors := connectedColors + [colorsList[connectedList[k]]];
      }
      assert connectedList[..|connectedList|] == connectedList;
      var newColor := 0;
      while newColor in connectedColors
        invariant 0 <= newColor <= |connectedColors|
        invariant forall v :: 0 <= v < newColor ==> v in connectedColors
        modifies {}
        decreases |connectedColors| - newColor
      {
        AllBelowOccur(connectedColors, newColor + 1);
        newColor := newColor + 1;
      }
      FirstFitUnique(connectedColors, newColor);
      colorsList[index] := newColor;
      // The store of FLinearColor::Black for a class past the palette's end is always
      // overwritten by the unchecked palette index that follows it; the third requires
      // clause is what that index demands.
      nodes[index] := nodes[index].(color := colors[newColor]);
    }
  }
}
