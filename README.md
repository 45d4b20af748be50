# Terrain colour painter: graph colouring and pixel fill

This project is a Dafny model of the computational core of the TerrainPainter editor plugin.
The core has three parts.

- **GraphHelper** colours a terrain graph. Its nodes are influence points with a UV
  position, a colour, an intensity and a distance modifier. Its connections join two
  node positions. Each node gets an entry from a palette, chosen by one of three
  strategies: Greedy, WelshPowell or DSatur.
- **The connection structs** FTerrainGraphConnection and FTerrainMapConnection have an
  order-insensitive `operator==` and a `Swap`.
- **The pixel loop of CreateTerrainColorTexture** fills a row-major BGRA pixel buffer.
  The texture-size bound of the widget's input check keeps that buffer's int32 index
  arithmetic in range.

The model is split into four modules.

- `ConnectionEquality` (connection_equality.dfy) holds the equality both connection
  structs share.
- `Coloring` (coloring.dfy) holds the pure rules the three strategies share:
  - `Neighbours`, the neighbour list in connection order;
  - `FirstFit`, the least class not used by a neighbour;
  - `GreedyPrefix`, the class array after positions 0 .. k-1 have been coloured in
    array order;
  - `Proper`, and the proof that the colouring is proper.
- `GraphHelpers` (graph_helpers.dfy) holds the node and connection types and the class
  `GraphHelper`. The class works in place on the node array, as the C++ class does
  through its `TArray&` members. Each strategy method is proved against the
  specification functions.
- `TerrainPainterWidget` (terrain_painter_widget.dfy) holds the map connection, the
  texture-size bound, and the pixel loop as a method over an `array`.

Some facts the proofs establish about the code as written:

- A node is identified by its array position. `GetConnectedNodes` compares element
  addresses, and both `IndexOfByKey` and `Algo::IndexOf` find a node's own position
  when no two nodes share position, intensity and distance modifier.
- A self-loop lists its node twice among its own neighbours.
- The DSatur scoring lambda gives -1 to nodes that are still **uncoloured** and a count
  of coloured neighbours to coloured ones. `Algo::MinElementBy` therefore always picks
  the first uncoloured node, so DSatur colours in array order. It produces exactly the
  classes Greedy produces (`DSaturSelectsArrayOrder`, `GraphHelper.SelectNext`).
  Saturation, as the strategy's name describes it, is never computed. This model follows
  the code, not that description. It also shows that the code does not get stuck
  re-selecting an already coloured node.
- WelshPowell sorts and reverses the node values but leaves the connection list alone.
  So the connections keep naming positions, and those positions now hold other nodes.
  The classes are the same ones Greedy computes over the same positions.
- Every strategy gives a proper colouring. If the palette has no repeated colour,
  connected nodes end with different colours (`GraphHelper.ColorGraph`).
- When a class has no palette entry, `ColorNode` stores black and then overwrites it
  with `Colors[newColor]`, which reads past the palette's end. The model therefore
  requires a palette entry for every class first fit picks (`Colorable`). A palette
  longer than every neighbour list is enough (`PaletteLargerThanDegree`). No overflow
  colour is substituted.

## Model

| member | source | states |
|---|---|---|
| ConnectionEquality.SameEndpoints | Plugins/TerrainPainter/Source/TerrainPainter/Private/GraphHelpers.h:38 | the shared `operator==` body of both connection structs: equal endpoints position by position or crosswise |
| ConnectionEquality.SameEndpointsIsSetEquality | Plugins/TerrainPainter/Source/TerrainPainter/Private/GraphHelpers.h:36-39 | two connections compare equal exactly when their endpoint sets are equal |
| ConnectionEquality.SameEndpointsIgnoresOrder | Plugins/TerrainPainter/Source/TerrainPainter/Private/GraphHelpers.h:36-39 | a connection equals its own reversal |
| ConnectionEquality.SameEndpointsReflexive | Plugins/TerrainPainter/Source/TerrainPainter/Public/TerrainPainterWidget.h:43-46 | every connection equals itself |
| ConnectionEquality.SameEndpointsSymmetric | Plugins/TerrainPainter/Source/TerrainPainter/Private/GraphHelpers.h:36-39 | connection equality is symmetric |
| ConnectionEquality.SameEndpointsTransitive | Plugins/TerrainPainter/Source/TerrainPainter/Public/TerrainPainterWidget.h:43-46 | connection equality is transitive |
| Coloring.Neighbours | Plugins/TerrainPainter/Source/TerrainPainter/Private/GraphHelpers.cpp:83-98 | the reference neighbour list, in connection order: the other endpoint of every connection touching p, with a self-loop at p listing p twice |
| Coloring.NeighboursMembership | Plugins/TerrainPainter/Source/TerrainPainter/Private/GraphHelpers.cpp:81-101 | q is in the neighbour list of p exactly when some connection joins p and q, in either orientation |
| Coloring.NeighboursSymmetric | Plugins/TerrainPainter/Source/TerrainPainter/Private/GraphHelpers.cpp:81-101 | q is a neighbour of p exactly when p is a neighbour of q |
| Coloring.NeighboursInRange | Plugins/TerrainPainter/Source/TerrainPainter/Private/GraphHelpers.cpp:85-88 | with every endpoint a valid position, every listed neighbour is a valid position |
| Coloring.FirstFit | Plugins/TerrainPainter/Source/TerrainPainter/Private/GraphHelpers.cpp:113-114 | the chosen class is absent from the neighbours' classes, every smaller class is present, and it is at most the number of neighbours |
| Coloring.FirstFitUnique | Plugins/TerrainPainter/Source/TerrainPainter/Private/GraphHelpers.cpp:113-114 | a class absent from the list, with every smaller class present, is the first-fit choice |
| Coloring.GreedyPrefix | Plugins/TerrainPainter/Source/TerrainPainter/Private/GraphHelpers.cpp:29-36 | after k rounds, positions 0 .. k-1 hold a class and the others are still -1 |
| Coloring.GreedyPrefixBoundedByDegree | Plugins/TerrainPainter/Source/TerrainPainter/Private/GraphHelpers.cpp:113-116 | no position receives a class above its neighbour count |
| Coloring.GreedyPrefixStable | Plugins/TerrainPainter/Source/TerrainPainter/Private/GraphHelpers.cpp:32-36 | a class, once assigned, is never changed by later rounds |
| Coloring.GreedyPrefixNext | Plugins/TerrainPainter/Source/TerrainPainter/Private/GraphHelpers.cpp:32-36 | the class first fit picks for position i after the rounds before it is the class position i ends with |
| Coloring.GreedyPrefixProper | Plugins/TerrainPainter/Source/TerrainPainter/Private/GraphHelpers.cpp:104-116 | after each round, no connection between two different coloured positions joins equal classes |
| Coloring.GreedyProper | Plugins/TerrainPainter/Source/TerrainPainter/Private/GraphHelpers.cpp:25-37 | the final class array is a proper colouring |
| Coloring.PaletteLargerThanDegree | Plugins/TerrainPainter/Source/TerrainPainter/Private/GraphHelpers.cpp:118-122 | a palette longer than every neighbour list has an entry for every class chosen |
| GraphHelpers.TerrainGraphNode.Equals | Plugins/TerrainPainter/Source/TerrainPainter/Private/GraphHelpers.h:22-25 | node `operator==`: UV position, colour, intensity and distance modifier all equal |
| GraphHelpers.NodeEqualsIsValueEquality | Plugins/TerrainPainter/Source/TerrainPainter/Private/GraphHelpers.h:22-25 | node operator== holds exactly when all four fields, the colour included, are equal |
| GraphHelpers.RecoloringBreaksEquality | Plugins/TerrainPainter/Source/TerrainPainter/Private/GraphHelpers.h:22-25 | giving a node a different colour makes it unequal to what it was |
| GraphHelpers.IndexOfByKey | Plugins/TerrainPainter/Source/TerrainPainter/Private/GraphHelpers.cpp:35 | the result is the first position holding an equal node, or -1 when there is none |
| GraphHelpers.IndexOfOwnPosition | Plugins/TerrainPainter/Source/TerrainPainter/Private/GraphHelpers.cpp:64 | when no two nodes share position, intensity and distance modifier, value lookup finds a node's own position |
| GraphHelpers.DSaturScore | Plugins/TerrainPainter/Source/TerrainPainter/Private/GraphHelpers.cpp:61-74 | a score is never below -1 |
| GraphHelpers.DSaturScoreUncolored | Plugins/TerrainPainter/Source/TerrainPainter/Private/GraphHelpers.cpp:63-64 | a node scores -1 exactly when its own class entry is still -1 |
| GraphHelpers.IsFirstMinimum | Plugins/TerrainPainter/Source/TerrainPainter/Private/GraphHelpers.cpp:61 | the choice of `Algo::MinElementBy`: a position of least value, before every other position of that value |
| GraphHelpers.DSaturSelectsArrayOrder | Plugins/TerrainPainter/Source/TerrainPainter/Private/GraphHelpers.cpp:59-77 | when positions 0 .. i-1 are coloured and the rest are not, the first least-score position is i |
| GraphHelpers.ReversalKeepsDistinct | Plugins/TerrainPainter/Source/TerrainPainter/Private/GraphHelpers.cpp:47 | reversing keeps the nodes pairwise distinguishable by value lookup |
| GraphHelpers.PermutationKeepsDistinct | Plugins/TerrainPainter/Source/TerrainPainter/Private/GraphHelpers.cpp:43-46 | rearranging keeps the nodes pairwise distinguishable by value lookup |
| GraphHelpers.ReorderKeepsDistinct | Plugins/TerrainPainter/Source/TerrainPainter/Private/GraphHelpers.cpp:43-47 | sorting then reversing keeps the nodes pairwise distinguishable by value lookup |
| GraphHelpers.RecolorPrefixAt | Plugins/TerrainPainter/Source/TerrainPainter/Private/GraphHelpers.cpp:32-36 | after i rounds, positions before i carry the palette entry of their class, and every other field of every node is unchanged |
| GraphHelpers.RecolorKeepsDistinct | Plugins/TerrainPainter/Source/TerrainPainter/Private/GraphHelpers.cpp:122 | recolouring never changes which nodes value lookup can tell apart |
| GraphHelpers.RecolorPrefixComplete | Plugins/TerrainPainter/Source/TerrainPainter/Private/GraphHelpers.cpp:32-36 | after the last round, every node carries the palette entry of its class |
| GraphHelpers.ProperGivesDistinctColors | Plugins/TerrainPainter/Source/TerrainPainter/Private/GraphHelpers.cpp:116-122 | with a proper class array and a palette of distinct colours, connected different nodes end with different colours |
| GraphHelpers.TerrainGraphConnection.Equals | Plugins/TerrainPainter/Source/TerrainPainter/Private/GraphHelpers.h:36-39 | graph connection `operator==`: the same endpoints in either order |
| GraphHelpers.TerrainGraphConnection.Swap | Plugins/TerrainPainter/Source/TerrainPainter/Private/GraphHelpers.h:41-46 | the endpoints are exchanged and the result still compares equal to the original |
| GraphHelpers.SwapTwiceRestoresGraphConnection | Plugins/TerrainPainter/Source/TerrainPainter/Private/GraphHelpers.h:41-46 | swapping twice gives back the same connection |
| GraphHelpers.GraphHelper.constructor | Plugins/TerrainPainter/Source/TerrainPainter/Private/GraphHelpers.cpp:5-10 | the helper refers to the given node array, connection list and palette |
| GraphHelpers.GraphHelper.ColorGraph | Plugins/TerrainPainter/Source/TerrainPainter/Private/GraphHelpers.cpp:12-23 | under every strategy each node gets the palette entry of its greedy class (WelshPowell after rearranging the nodes), the colouring is proper, and with a duplicate-free palette connected nodes differ in colour |
| GraphHelpers.GraphHelper.GreedyColoring | Plugins/TerrainPainter/Source/TerrainPainter/Private/GraphHelpers.cpp:25-37 | the nodes end recoloured, position by position in array order, with the palette entries of the greedy classes, and those classes form a proper colouring |
| GraphHelpers.GraphHelper.ColorPosition | Plugins/TerrainPainter/Source/TerrainPainter/Private/GraphHelpers.cpp:34-35 | one round colours the chosen position with the class it ends with, keeping the round invariant |
| GraphHelpers.GraphHelper.WelshPowell | Plugins/TerrainPainter/Source/TerrainPainter/Private/GraphHelpers.cpp:39-50 | the nodes end as the reversal of the sorted arrangement, recoloured with the greedy classes, and the colouring is proper |
| GraphHelpers.GraphHelper.SortBy | Plugins/TerrainPainter/Source/TerrainPainter/Private/GraphHelpers.cpp:43-46 | position i ends holding the node that was at order[i] |
| GraphHelpers.GraphHelper.Reverse | Plugins/TerrainPainter/Source/TerrainPainter/Private/GraphHelpers.cpp:47 | the node array ends reversed |
| GraphHelpers.GraphHelper.DSatur | Plugins/TerrainPainter/Source/TerrainPainter/Private/GraphHelpers.cpp:52-79 | the nodes end recoloured with exactly the greedy classes, in array order, and the colouring is proper |
| GraphHelpers.GraphHelper.SelectNext | Plugins/TerrainPainter/Source/TerrainPainter/Private/GraphHelpers.cpp:59-75 | while positions 0 .. i-1 are coloured, the selection picks position i |
| GraphHelpers.GraphHelper.MinElementByScore | Plugins/TerrainPainter/Source/TerrainPainter/Private/GraphHelpers.cpp:61-74 | the result is the first position of least score |
| GraphHelpers.GraphHelper.Score | Plugins/TerrainPainter/Source/TerrainPainter/Private/GraphHelpers.cpp:61-74 | the counting loop computes the score of the node at the position |
| GraphHelpers.GraphHelper.GetConnectedNodes | Plugins/TerrainPainter/Source/TerrainPainter/Private/GraphHelpers.cpp:81-101 | the result is the neighbour list of the position, in connection order |
| GraphHelpers.GraphHelper.ColorNode | Plugins/TerrainPainter/Source/TerrainPainter/Private/GraphHelpers.cpp:104-123 | the class array gains the first-fit class at index, and the node there takes that class's palette entry, nothing else changing |
| TerrainPainterWidget.TerrainMapConnection.Equals | Plugins/TerrainPainter/Source/TerrainPainter/Public/TerrainPainterWidget.h:43-46 | map connection `operator==`: the same endpoints in either order |
| TerrainPainterWidget.TerrainMapConnection.Swap | Plugins/TerrainPainter/Source/TerrainPainter/Public/TerrainPainterWidget.h:48-53 | the endpoints are exchanged and the result still compares equal to the original |
| TerrainPainterWidget.SwapTwiceRestoresMapConnection | Plugins/TerrainPainter/Source/TerrainPainter/Public/TerrainPainterWidget.h:48-53 | swapping twice gives back the same connection |
| TerrainPainterWidget.TextureSizeValid | Plugins/TerrainPainter/Source/TerrainPainter/Private/TerrainPainterWidget.cpp:142 | the texture-size part of the input check: both sides above 0 and below 8192 |
| TerrainPainterWidget.PixelCountFitsInt32 | Plugins/TerrainPainter/Source/TerrainPainter/Private/TerrainPainterWidget.cpp:142 | a texture that passes the size check has a positive pixel count below 2^31 |
| TerrainPainterWidget.PixelIndexInRange | Plugins/TerrainPainter/Source/TerrainPainter/Private/TerrainPainterWidget.cpp:162-163 | the row-major index of every pixel lies inside the buffer |
| TerrainPainterWidget.PixelIndexDecodes | Plugins/TerrainPainter/Source/TerrainPainter/Private/TerrainPainterWidget.cpp:162 | the column and row are recovered from a pixel's index |
| TerrainPainterWidget.PixelIndexInjective | Plugins/TerrainPainter/Source/TerrainPainter/Private/TerrainPainterWidget.cpp:162-163 | distinct pixels have distinct indices, so no write overwrites another pixel |
| TerrainPainterWidget.PixelIndex | Plugins/TerrainPainter/Source/TerrainPainter/Private/TerrainPainterWidget.cpp:162 | the index of a pixel of the texture lies inside the buffer |
| TerrainPainterWidget.FillPixelData | Plugins/TerrainPainter/Source/TerrainPainter/Private/TerrainPainterWidget.cpp:153-165 | the buffer has width * height elements, and the element for every pixel (x, y) holds the colour computed for (x, y) |
| TerrainPainterWidget.FillRow | Plugins/TerrainPainter/Source/TerrainPainter/Private/TerrainPainterWidget.cpp:160-164 | one row, left to right, extends the filled part of the buffer by a whole row |

## Left out

- The editor and UI plumbing, asset and package creation, saving, notifications, and
  the texture upload after the pixel loop: these are engine calls with no logic of the
  plugin's own.
- CleanupGraph is not part of this model: it is declared but has no body. The same holds
  for ComputeCheckerboard and ComputeWeightedTerrainColor, which the widget header
  declares and the pixel loop never calls.
- ComputeColorForPixel (TerrainPainterWidget.cpp, lines 178-185) is a parameter of
  `FillPixelData`. The model leaves out its float gradient: the column and row divided by the texture's width
  and height, their mean clamped to [0, 1] as the blend, and the linear colour
  (1, 1 - blend, 1 - blend, 1). It also leaves out the `ToFColor` conversion of that
  colour to an 8-bit BGRA pixel. Float arithmetic and its rounding are outside the model;
  the fill is proved for any pixel function.
- The directory and package-name checks of InputParametersValid are left out: they are
  file-system queries. Only the texture-size bound is modelled.
- Float fields and colours are modelled as reals. NaN and rounding are left out, so
  `operator==` on nodes is exact value equality.
- Node counts, connection endpoints and class numbers are unbounded integers; int32
  overflow there is not modelled. The pixel loop's int32 arithmetic is modelled.
- SetNumUninitialized: the buffer starts from a fixed colour, since every element is
  written before it is read.
- The connection structs are values held inline in their arrays. `Swap` is therefore
  a function that returns the swapped struct, not an update in place.
- GraphHelpers.GraphHelper.SortBy: the arrangement `Algo::SortBy` produces is the
  parameter `order`, any permutation. Its sort key is the neighbour count of whatever
  position an element holds when compared, which changes as elements move, so the
  model does not claim the result is sorted by degree.
- GraphHelpers.GraphHelper.ColorGraph: requires that no two nodes agree on UV position,
  intensity and distance modifier. With such duplicates, value lookup finds the first
  equal node and colours that position instead; this model does not cover that case.
- GraphHelpers.GraphHelper.ColorNode: requires that the first-fit class has a palette
  entry. The source writes black and then reads past the palette's end, and the model
  does not give that read a meaning.
- GraphHelpers.DSaturScore: its contract only bounds the score from below. What the
  selection relies on is stated by `DSaturScoreUncolored`.
- The `check(nextNode)` in DSatur always holds for a non-empty array, and is not
  modelled as a separate step.
