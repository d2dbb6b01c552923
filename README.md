# Image segmentation bookkeeping of `segment`

`segment` (segment.py:22-104) turns a multi-band image into a segmentation
in four steps:

1. It builds the pixel-adjacency graph. Every pixel `(x, y)` of a
   `width` by `height` image is vertex `y * width + x`. Every pixel emits up
   to four weighted edges: right, down, diagonal down-right and diagonal
   up-right. The edges go into a preallocated table of `width * height * 4`
   rows while a counter `num` advances.
2. It clusters the graph into a disjoint-set forest `u` (`segment_graph`),
   which receives the edge table itself and may leave it reordered.
3. It runs one post-processing pass over the edges. The pass joins the two
   components of an edge when they differ and either one has fewer than
   `min_size` pixels.
4. It counts the components and labels every pixel with the root of its
   component.

This project models steps 1, 3 and 4 in Dafny, as imperative code over
arrays, each method proved against a specification function:

- `PixelGraph` (pixel_graph.dfy) defines the edge list the build loops
  produce. `PixelEdges`, `RowEdges`, `EdgesBefore` and `GraphEdges` give
  that list pixel by pixel, row by row and for the whole image. The module
  proves the list's length, bounds, endpoints, order and adjacency.
- `DisjointSets` (disjoint_sets.dfy) gives the union-find's abstract state:
  a map from every vertex to the root of its component. `Merge` specifies
  `join`. The class `UnionFind` implements `find`, `size`, `join` and
  `num_sets` against that state.
- `Segmentation` (segmentation.dfy) holds the loops of `segment`:
  - `BuildGraph` fills the edge table in place.
  - `MergeSmallComponents` runs the post-processing pass on the union-find.
  - `LabelPixels` fills the label array.
  - `Segment` runs all three, and also the component count.

  `PostProcess` is the pass as a fold over the edge list, and the lemmas
  about it state what the pass achieves.

The guard of the diagonal down-right edge is `y < height - 2`, while the
down edge uses `y < height - 1`. The design documentation says every
neighbour whose endpoints are both in the image gets an edge. The model
follows the code: the row above the last has no down-right edges.
`Linked` and `SecondToLastRowHasNoDownRightEdge` state this.

## Model

| member | source | states |
|---|---|---|
| PixelGraph.VertexInRange | segment.py:41-42 | the vertex `y * width + x` of a pixel in the image lies in `[0, width*height)`, and so do its four table slots |
| PixelGraph.VertexInjective | segment.py:41 | two pixels with the same vertex number are the same pixel |
| PixelGraph.Vertex | segment.py:84 | the vertex number of an in-image pixel is below `width * height` |
| PixelGraph.PixelEdgesLength | segment.py:40-61 | one pixel emits at most four edges |
| PixelGraph.RowEdgesLength | segment.py:39-61 | the first `x` pixels of row `y` emit the right, down, down-right and up-right edges their guards allow, counted direction by direction |
| PixelGraph.EdgesBeforeLength | segment.py:38-61 | the first `y` rows emit exactly `RowsCount(y)` edges |
| PixelGraph.EdgeCount | segment.py:38-61 | for `w, h >= 1` the build emits `(w-1)*h + w*(h-1) + (w-1)*max(h-2,0) + (w-1)*(h-1)` edges; an image without pixels emits none |
| PixelGraph.EdgeCountBound | segment.py:34-61 | the number of emitted edges never exceeds the `width*height*4` rows of the table |
| PixelGraph.RowEdgesPrefix | segment.py:39-61 | the edges of a shorter part of a row are a prefix of those of a longer part: emission only appends |
| PixelGraph.EdgesBeforePrefix | segment.py:38-61 | the edges of fewer rows are a prefix of those of more rows |
| PixelGraph.PixelPrefix | segment.py:38-61 | everything emitted up to and including pixel `(x, y)` is a prefix of the final edge list |
| PixelGraph.PixelBlock | segment.py:38-61 | the edges of pixel `(x, y)` form one contiguous block of the final list, at `Offset(x, y)`, in the order right, down, down-right, up-right |
| PixelGraph.LinkedEdgeWellFormed | segment.py:40-61 | the edge between two linked in-image pixels is well formed |
| PixelGraph.PixelEdgesWellFormed | segment.py:40-61 | every edge a pixel emits joins it to a linked in-image neighbour and carries their `diff` as weight |
| PixelGraph.RowEdgesWellFormed | segment.py:39-61 | every edge of a row is well formed |
| PixelGraph.EdgesBeforeWellFormed | segment.py:38-61 | every edge of the first `y` rows is well formed |
| PixelGraph.EdgesWellFormed | segment.py:38-61 | every emitted edge joins two linked pixels of the image and carries their dissimilarity |
| PixelGraph.EdgeEndpointsInRange | segment.py:40-60 | both endpoints of every emitted edge lie in `[0, width*height)` |
| PixelGraph.PixelEdgesSources | segment.py:41-58 | every edge of pixel `(x, y)` has the source `y * width + x` |
| PixelGraph.RowEdgesOrdered | segment.py:39-61 | the edges of a row leave its pixels in increasing order |
| PixelGraph.EdgesBeforeOrdered | segment.py:38-61 | the edges of the first `y` rows leave their pixels in increasing order |
| PixelGraph.EdgesInPixelOrder | segment.py:38-61 | sources never decrease along the edge list, so all edges of pixel `p` precede all edges of pixel `p + 1` |
| PixelGraph.EdgePresent | segment.py:40-61 | every linked pair of in-image pixels has its edge, with its weight, in the list |
| PixelGraph.Adjacency | segment.py:40-61 | an edge from `(x, y)` to `(x2, y2)` is in the list if and only if the pixels are linked: the right, down and up-right neighbours always, the down-right neighbour only when `y < height - 2` |
| PixelGraph.SecondToLastRowHasNoDownRightEdge | segment.py:51 | no pixel of row `height - 2` has an edge to its down-right neighbour, although that neighbour is in the image |
| Segmentation.EmitPixelEdges | segment.py:40-61 | one pixel iteration appends exactly `PixelEdges(x, y)` at `num`, at most four rows, and leaves the rest of the table alone |
| Segmentation.EmitRowEdges | segment.py:39-61 | one row iteration appends exactly that row's edges, at most `4 * width` rows, and leaves the unwritten rows zero |
| Segmentation.BuildGraph | segment.py:34-61 | allocates `width*height*4` zero rows and fills `edges[0..num)` with exactly the specified edge list, leaving the other rows zero |
| DisjointSets.CountSingletons | segment.py:63 | in the partition into single vertices, every component has size 1 |
| DisjointSets.SingletonsPartition | segment.py:63 | single vertices form a partition with `n` components |
| DisjointSets.RootCountPositive | segment.py:69 | the size of a component is at least 1 |
| DisjointSets.NumRootsBound | segment.py:72 | a partition of `n` vertices has at most `n` components |
| DisjointSets.SizesSumToVertexCount | segment.py:69-72 | the sizes of all components add up to the number of vertices |
| DisjointSets.CountRelabel | segment.py:70 | relabelling one root to another moves all its members and no others |
| DisjointSets.RootsBelowRelabel | segment.py:70 | relabelling a root to another root removes exactly one root |
| DisjointSets.Merge | segment.py:70 | joining distinct roots `a` and `b` gives a partition in which both components are one, rooted at the larger one (at `a` on a tie); its size is the sum; other vertices and sizes are unchanged; there is one component less |
| DisjointSets.MergeSizes | segment.py:70 | recording the summed size at the winning root keeps every root's size right after a join |
| DisjointSets.UnionFind.constructor | segment.py:63 | `n` singleton components, each of size 1 |
| DisjointSets.UnionFind.Find | segment.py:67-68 | returns the root of `v`'s component, a vertex that is its own root |
| DisjointSets.UnionFind.Size | segment.py:69 | returns the number of vertices in root `r`'s component, at least 1 |
| DisjointSets.UnionFind.NumSets | segment.py:72 | returns the number of components, at most `n` |
| DisjointSets.UnionFind.Join | segment.py:70 | performs `Merge` in place and lowers the component count by one |
| Segmentation.MergeStep | segment.py:67-70 | one edge of the pass: it joins only when the endpoints' components differ and one has fewer than `minSize` pixels; it never joins two components both of size `>= minSize`; a join lowers the component count by one; afterwards the edge is settled |
| Segmentation.PostProcess | segment.py:66-70 | the pass over an edge list yields a partition of the same vertices |
| Segmentation.CoarsensTransitive | segment.py:66-70 | joining components twice still only joins components |
| Segmentation.PostProcessCoarsens | segment.py:66-70 | the pass only joins components: pixels together before stay together, and no component shrinks |
| Segmentation.PostProcessRoots | segment.py:66-72 | each join removes one component, so `num_cc` equals the count before the pass minus the joins, and is at most `width*height` minus the joins |
| Segmentation.SettledStable | segment.py:66-70 | an edge whose endpoints are together, or whose components are both large enough, stays so as components grow |
| Segmentation.SettledExtend | segment.py:66-70 | joining components keeps a list of settled edges settled |
| Segmentation.PostProcessSettles | segment.py:66-70 | after the pass, every edge has both endpoints in one component or both components of at least `minSize` pixels |
| Segmentation.PostProcessIdentity | segment.py:66-70 | with `minSize <= 1` the pass joins nothing and leaves the partition unchanged |
| Segmentation.PostProcessStep | segment.py:66-70 | the pass over the first `i + 1` edges is the pass over the first `i` followed by edge `i` |
| Segmentation.MergeAlong | segment.py:67-70 | one iteration of the loop changes the union-find exactly as `MergeStep` says |
| Segmentation.MergeSmallComponents | segment.py:65-70 | the loop over `edges[0..num)` changes the union-find exactly as `PostProcess` says |
| Segmentation.LabelPixels | segment.py:74-86 | `output[y, x]` is the root of pixel `(x, y)`'s component, a valid vertex index that is its own root; two pixels get the same label if and only if they are in the same component |
| Segmentation.ReorderEdges | segment.py:63 | the clustering step's effect on the table: `edges[0..num)` ends up holding the same edges in the given order, and the other rows are untouched |
| Segmentation.PermutedEndpointsIn | segment.py:63-68 | any rearrangement of the built edges still has vertices as endpoints, so every `find` of the pass is in range |
| Segmentation.PermutedPassSettles | segment.py:63-70 | whatever order the clustering step leaves the edges in, after the pass every built edge has its endpoints in one component or both components of at least `minSize` pixels |
| Segmentation.Segment | segment.py:22-104 | with the table in whatever order the clustering step left it, the union-find ends as the pass over that order specifies, and every built edge is settled; `num_cc` is the number of components, at most `width*height`; `output` labels every pixel with its root, and two pixels share a label if and only if they share a component |

## Left out

- Band smoothing (`smooth`, segment.py:27-31) is a convolution from the `filter` module, which is not part of this model.
- The dissimilarity `diff` (segment.py:43, 48, 54, 60) is a floating-point distance over five smoothed bands. It is a function parameter `Diff` returning a `real`, with the bands captured in it.
- `segment_graph` (segment.py:63) is not part of this model, and neither is its threshold clustering with `k`. `Segment` takes the forest it returns as a parameter `u`, which must cover the `width * height` vertices. `k` therefore does not appear.
- The union-find's source is not part of this model. `UnionFind` keeps each vertex's root directly (quick-find), so it has no path compression and no rank. Only the abstract state is modelled. The rule that the larger component absorbs the smaller one, with the first argument winning a tie, is taken from the documented behaviour of `join`.
- Random colours and the colour image (segment.py:73, 76-79, 85) are nondeterministic and only for display.
- Display, timing and printing (segment.py:23-26, 89-102) are I/O.
- The commented-out `__main__` block (segment.py:107-128) only loads files.
- Edge table: the `(width * height * 4, 3)` object array becomes an `array<Edge>` of records. Its zero rows are `ZeroEdge`. Weights are `real`s rather than floats.
- Segmentation.LabelPixels: the label array holds `int` roots rather than the floats of `np.zeros`; the values are the same.
- Segmentation.Segment: the order in which `segment_graph` leaves the edge table (its clustering sorts the edges by weight) is not computed. It is a parameter `order` that must hold exactly the built edges, and `ReorderEdges` writes it into the table. The pass depends on that order, so `Segment` states the result as the pass over `order`. Settledness of every built edge holds whatever the order.
- Segmentation.Segment: returns `num_cc` beside `output`. The source computes `num_cc` but returns `(output, u)`; here `u` is updated in place and is the caller's.
- Input validation: the design documentation names errors for bad dimensions and for `min_size < 1`. `segment` checks neither, and the model follows the code: it accepts any `width`, `height` and `minSize`.
