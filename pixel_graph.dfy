/**
 * The pixel-adjacency graph that `segment` builds before clustering
 * (segment.py:33-61): every pixel (x, y) of a width-by-height image is the
 * vertex y * width + x, and each pixel emits up to four edges -- right, down,
 * diagonal down-right, diagonal up-right -- in that order, pixels taken in
 * row-major order.
 *
 * The functions here are the specification of the edge table; the method that
 * fills the table in place (Segmentation.BuildGraph) is proved against them.
 */
module PixelGraph {

  /** One row of the edge table: source vertex, destination vertex, weight. */
  datatype Edge = Edge(src: int, dst: int, weight: real)

  /** An edge-table slot that was never written (the table starts as zeros). */
  const ZeroEdge := Edge(0, 0, 0.0)

  /**
   * The dissimilarity of pixel (x1, y1) and pixel (x2, y2), taken as given:
   * the smoothed bands it reads are captured inside it.
   */
  type Diff = (int, int, int, int) -> real

  /** The edges pixel (x, y) emits, in the order the four guards test them. */
  function PixelEdges(width: nat, height: nat, x: int, y: int, diff: Diff): seq<Edge>
  {
    (if x < width - 1 then [Edge(y * width + x, y * width + (x + 1), diff(x, y, x + 1, y))] else [])
    + (if y < height - 1 then [Edge(y * width + x, (y + 1) * width + x, diff(x, y, x, y + 1))] else [])
    + (if x < width - 1 && y < height - 2
       then [Edge(y * width + x, (y + 1) * width + (x + 1), diff(x, y, x + 1, y + 1))] else [])
    + (if x < width - 1 && y > 0
       then [Edge(y * width + x, (y - 1) * width + (x + 1), diff(x, y, x + 1, y - 1))] else [])
  }

  /** The edges of the first x pixels of row y, in emission order. */
  function RowEdges(width: nat, height: nat, y: int, x: nat, diff: Diff): seq<Edge>
    decreases x
  {
    if x == 0 then [] else RowEdges(width, height, y, x - 1, diff) + PixelEdges(width, height, x - 1, y, diff)
  }

  /** The edges of the first y rows, in emission order. */
  function EdgesBefore(width: nat, height: nat, y: nat, diff: Diff): seq<Edge>
    decreases y
  {
    if y == 0 then [] else EdgesBefore(width, height, y - 1, diff) + RowEdges(width, height, y - 1, width, diff)
  }

  /** The whole edge list, edges[0..num) once the build loop has finished. */
  function GraphEdges(width: nat, height: nat, diff: Diff): seq<Edge>
  {
    EdgesBefore(width, height, height, diff)
  }

  function Min(a: int, b: int): int { if a <= b then a else b }

  function Max(a: int, b: int): int { if a <= b then b else a }

  predicate InImage(width: nat, height: nat, x: int, y: int)
  {
    0 <= x < width && 0 <= y < height
  }

  /**
   * The neighbour relation the four guards implement, in coordinates: (x2, y2)
   * is the right, lower, lower-right or upper-right neighbour of (x, y); the
   * lower-right neighbour counts only when y < height - 2, so the row above the
   * last one has no lower-right edges although their targets lie in the image.
   */
  predicate Linked(height: nat, x: int, y: int, x2: int, y2: int)
  {
    || (x2 == x + 1 && y2 == y)
    || (x2 == x && y2 == y + 1)
    || (x2 == x + 1 && y2 == y + 1 && y < height - 2)
    || (x2 == x + 1 && y2 == y - 1)
  }

  /**
   * Edge e is the edge from pixel (x, y) to pixel (x2, y2) of the image: the
   * two pixels are Linked, e goes from the vertex of the first to the vertex
   * of the second, and its weight is their dissimilarity.
   */
  predicate Joins(width: nat, height: nat, diff: Diff, e: Edge, x: int, y: int, x2: int, y2: int)
  {
    && InImage(width, height, x, y)
    && InImage(width, height, x2, y2)
    && Linked(height, x, y, x2, y2)
    && e == Edge(y * width + x, y2 * width + x2, diff(x, y, x2, y2))
  }

  /** An edge as the builder emits it: it Joins some two pixels of the image. */
  ghost predicate WellFormed(width: nat, height: nat, diff: Diff, e: Edge)
  {
    exists x, y, x2, y2 :: Joins(width, height, diff, e, x, y, x2, y2)
  }

  // ---------------------------------------------------------------------------
  // Vertex numbering

  lemma MulStep(a: int, b: int)
    ensures (a + 1) * b == a * b + b
    ensures (a - 1) * b == a * b - b
  {
  }

  /** The vertex of a pixel in the image is a vertex of the graph. */
  lemma VertexInRange(width: nat, height: nat, x: int, y: int)
    requires InImage(width, height, x, y)
    ensures 0 <= y * width + x < width * height
    ensures 4 * (y * width + x) + 4 <= width * height * 4
  {
    MulStep(y, width);
    assert (y + 1) * width <= height * width by {
      var d := height - (y + 1);
      assert height * width == (y + 1) * width + d * width;
    }
  }

  /** The vertex number of pixel (x, y): rows are laid out one after another. */
  function Vertex(width: nat, height: nat, x: int, y: int): (v: nat)
    requires InImage(width, height, x, y)
    ensures v < width * height
  {
    VertexInRange(width, height, x, y);
    y * width + x
  }

  /** Row y starts inside the edge table as long as y is a row or the end of the image. */
  lemma RowStartInRange(width: nat, height: nat, y: nat)
    requires y <= height
    ensures 4 * (y * width) <= width * height * 4
  {
    MulMonotone(y, height, width);
  }

  lemma MulMonotone(a: int, b: int, c: nat)
    requires a <= b
    ensures a * c <= b * c
  {
    assert b * c - a * c == (b - a) * c;
  }

  /** Two pixels of an image `width` wide with the same vertex number are the same pixel. */
  lemma VertexInjective(width: nat, x1: int, y1: int, x2: int, y2: int)
    requires 0 <= x1 < width && 0 <= x2 < width
    requires y1 * width + x1 == y2 * width + x2
    ensures x1 == x2 && y1 == y2
  {
    if y1 > y2 {
      MulMonotone(y2 + 1, y1, width);
      MulStep(y2, width);
      assert false;
    } else if y1 < y2 {
      MulMonotone(y1 + 1, y2, width);
      MulStep(y1, width);
      assert false;
    }
  }

  // ---------------------------------------------------------------------------
  // Edge count

  lemma PixelEdgesLength(width: nat, height: nat, x: int, y: int, diff: Diff)
    ensures |PixelEdges(width, height, x, y, diff)|
            == (if x < width - 1 then 1 else 0) + (if y < height - 1 then 1 else 0)
               + (if x < width - 1 && y < height - 2 then 1 else 0) + (if x < width - 1 && y > 0 then 1 else 0)
  {
  }

  /** Edges in the first x pixels of row y, counted direction by direction. */
  function RowCount(width: nat, height: nat, y: int, x: nat): int
  {
    var r := Min(x, Max(width - 1, 0));
    r + (if y < height - 1 then x else 0) + (if y < height - 2 then r else 0) + (if y > 0 then r else 0)
  }

  lemma {:induction false} RowEdgesLength(width: nat, height: nat, y: int, x: nat, diff: Diff)
    requires x <= width
    ensures |RowEdges(width, height, y, x, diff)| == RowCount(width, height, y, x)
    decreases x
  {
    if x > 0 {
      RowEdgesLength(width, height, y, x - 1, diff);
      PixelEdgesLength(width, height, x - 1, y, diff);
    }
  }

  /** Edges in the first y rows, for an image at least one pixel wide and high. */
  function RowsCount(width: nat, height: nat, y: nat): int
  {
    y * (width - 1) + Min(y, height - 1) * width + Min(y, Max(height - 2, 0)) * (width - 1)
    + Max(y - 1, 0) * (width - 1)
  }

  lemma {:induction false} EdgesBeforeLength(width: nat, height: nat, y: nat, diff: Diff)
    requires 1 <= width && 1 <= height && y <= height
    ensures |EdgesBefore(width, height, y, diff)| == RowsCount(width, height, y)
    decreases y
  {
    if y > 0 {
      EdgesBeforeLength(width, height, y - 1, diff);
      RowEdgesLength(width, height, y - 1, width, diff);
      RowsCountStep(width, height, y);
    }
  }

  lemma RowsCountStep(width: nat, height: nat, y: nat)
    requires 1 <= width && 1 <= y <= height
    ensures RowsCount(width, height, y) == RowsCount(width, height, y - 1) + RowCount(width, height, y - 1, width)
  {
    MulStep(y - 1, width - 1);
    MulStep(Min(y - 1, height - 1), width);
    MulStep(Min(y - 1, Max(height - 2, 0)), width - 1);
    MulStep(Max(y - 2, 0), width - 1);
  }

  /**
   * The number of edges the build loop emits: (w-1)*h right edges, w*(h-1)
   * down edges, (w-1)*max(h-2, 0) down-right edges and (w-1)*(h-1) up-right
   * edges; an image with no pixels has none.
   */
  lemma EdgeCount(width: nat, height: nat, diff: Diff)
    ensures width >= 1 && height >= 1 ==>
      |GraphEdges(width, height, diff)|
      == (width - 1) * height + width * (height - 1) + (width - 1) * Max(height - 2, 0)
         + (width - 1) * (height - 1)
    ensures width == 0 || height == 0 ==> GraphEdges(width, height, diff) == []
  {
    if width >= 1 && height >= 1 {
      EdgesBeforeLength(width, height, height, diff);
      AllRowsCount(width, height);
    } else if width == 0 {
      NoEdgesWithoutColumns(height, height, diff);
    }
  }

  lemma AllRowsCount(width: nat, height: nat)
    requires 1 <= width && 1 <= height
    ensures RowsCount(width, height, height)
            == (width - 1) * height + width * (height - 1) + (width - 1) * Max(height - 2, 0)
               + (width - 1) * (height - 1)
  {
    assert Min(height, height - 1) == height - 1;
    assert Min(height, Max(height - 2, 0)) == Max(height - 2, 0);
    assert Max(height - 1, 0) == height - 1;
  }

  lemma {:induction false} NoEdgesWithoutColumns(height: nat, y: nat, diff: Diff)
    ensures EdgesBefore(0, height, y, diff) == []
    decreases y
  {
    if y > 0 {
      NoEdgesWithoutColumns(height, y - 1, diff);
    }
  }

  lemma {:induction false} RowEdgesBound(width: nat, height: nat, y: int, x: nat, diff: Diff)
    ensures |RowEdges(width, height, y, x, diff)| <= 4 * x
    decreases x
  {
    if x > 0 {
      RowEdgesBound(width, height, y, x - 1, diff);
    }
  }

  lemma {:induction false} EdgesBeforeBound(width: nat, height: nat, y: nat, diff: Diff)
    ensures |EdgesBefore(width, height, y, diff)| <= 4 * (y * width)
    decreases y
  {
    if y > 0 {
      EdgesBeforeBound(width, height, y - 1, diff);
      RowEdgesBound(width, height, y - 1, width, diff);
      MulStep(y - 1, width);
    }
  }

  /** At most four edges per pixel: the table of width * height * 4 slots is never overrun. */
  lemma EdgeCountBound(width: nat, height: nat, diff: Diff)
    ensures |GraphEdges(width, height, diff)| <= width * height * 4
  {
    EdgesBeforeBound(width, height, height, diff);
  }

  // ---------------------------------------------------------------------------
  // Prefixes and positions

  lemma {:induction false} RowEdgesPrefix(width: nat, height: nat, y: int, x: nat, x2: nat, diff: Diff)
    requires x <= x2
    ensures RowEdges(width, height, y, x, diff) <= RowEdges(width, height, y, x2, diff)
    decreases x2
  {
    if x < x2 {
      RowEdgesPrefix(width, height, y, x, x2 - 1, diff);
      PrefixExtend(RowEdges(width, height, y, x, diff), RowEdges(width, height, y, x2 - 1, diff),
        PixelEdges(width, height, x2 - 1, y, diff));
    }
  }

  lemma {:induction false} EdgesBeforePrefix(width: nat, height: nat, y: nat, y2: nat, diff: Diff)
    requires y <= y2
    ensures EdgesBefore(width, height, y, diff) <= EdgesBefore(width, height, y2, diff)
    decreases y2
  {
    if y < y2 {
      EdgesBeforePrefix(width, height, y, y2 - 1, diff);
      PrefixExtend(EdgesBefore(width, height, y, diff), EdgesBefore(width, height, y2 - 1, diff),
        RowEdges(width, height, y2 - 1, width, diff));
    }
  }

  lemma PrefixExtend<T>(a: seq<T>, b: seq<T>, c: seq<T>)
    requires a <= b
    ensures a <= b + c
  {
    assert (b + c)[..|b|] == b;
  }

  /** Where the edges of pixel (x, y) start in the edge list. */
  function Offset(width: nat, height: nat, x: nat, y: nat, diff: Diff): nat
  {
    |EdgesBefore(width, height, y, diff) + RowEdges(width, height, y, x, diff)|
  }

  /** Everything emitted up to and including pixel (x, y) is a prefix of the edge list. */
  lemma PixelPrefix(width: nat, height: nat, x: nat, y: nat, diff: Diff)
    requires InImage(width, height, x, y)
    ensures EdgesBefore(width, height, y, diff) + RowEdges(width, height, y, x + 1, diff)
            <= GraphEdges(width, height, diff)
  {
    RowEdgesPrefix(width, height, y, x + 1, width, diff);
    EdgesBeforePrefix(width, height, y + 1, height, diff);
  }

  /**
   * The edges of pixel (x, y) occupy one contiguous block of the edge list,
   * starting at Offset(x, y), in the fixed order right, down, down-right,
   * up-right.
   */
  lemma PixelBlock(width: nat, height: nat, x: nat, y: nat, diff: Diff)
    requires InImage(width, height, x, y)
    ensures var off := Offset(width, height, x, y, diff);
      && off + |PixelEdges(width, height, x, y, diff)| <= |GraphEdges(width, height, diff)|
      && GraphEdges(width, height, diff)[off .. off + |PixelEdges(width, height, x, y, diff)|]
         == PixelEdges(width, height, x, y, diff)
  {
    PixelPrefix(width, height, x, y, diff);
    var before := EdgesBefore(width, height, y, diff);
    var row := RowEdges(width, height, y, x, diff);
    var p := PixelEdges(width, height, x, y, diff);
    assert RowEdges(width, height, y, x + 1, diff) == row + p;
    AppendAssoc(before, row, p);
    BlockOfPrefix(before + row, p, GraphEdges(width, height, diff));
  }

  lemma AppendAssoc<T>(a: seq<T>, b: seq<T>, c: seq<T>)
    ensures (a + b) + c == a + (b + c)
  {
  }

  /** If pre + p is a prefix of all, then p sits in all right after pre. */
  lemma BlockOfPrefix<T>(pre: seq<T>, p: seq<T>, all: seq<T>)
    requires pre + p <= all
    ensures |pre| + |p| <= |all| && all[|pre| .. |pre| + |p|] == p
  {
    assert all[|pre| .. |pre| + |p|] == (pre + p)[|pre| ..];
  }

  // ---------------------------------------------------------------------------
  // Endpoints and order

  /** The edge between two Linked pixels of the image is well formed. */
  lemma LinkedEdgeWellFormed(width: nat, height: nat, diff: Diff, x: int, y: int, x2: int, y2: int)
    requires InImage(width, height, x, y) && InImage(width, height, x2, y2)
    requires Linked(height, x, y, x2, y2)
    ensures WellFormed(width, height, diff, Edge(y * width + x, y2 * width + x2, diff(x, y, x2, y2)))
  {
    assert Joins(width, height, diff, Edge(y * width + x, y2 * width + x2, diff(x, y, x2, y2)), x, y, x2, y2);
  }

  /** Every edge of s is well formed. */
  ghost predicate AllWellFormed(width: nat, height: nat, diff: Diff, s: seq<Edge>)
  {
    forall i :: 0 <= i < |s| ==> WellFormed(width, height, diff, s[i])
  }

  /** Every edge of s leaves a vertex in [lo, hi). */
  predicate SourcesIn(s: seq<Edge>, lo: int, hi: int)
  {
    forall i :: 0 <= i < |s| ==> lo <= s[i].src < hi
  }

  lemma AllWellFormedConcat(width: nat, height: nat, diff: Diff, a: seq<Edge>, b: seq<Edge>)
    requires AllWellFormed(width, height, diff, a) && AllWellFormed(width, height, diff, b)
    ensures AllWellFormed(width, height, diff, a + b)
  {
    forall i | 0 <= i < |a + b| ensures WellFormed(width, height, diff, (a + b)[i]) {
      if i < |a| {
        assert (a + b)[i] == a[i];
      } else {
        assert (a + b)[i] == b[i - |a|];
      }
    }
  }

  /** Every edge pixel (x, y) emits is well formed. */
  lemma PixelEdgesWellFormed(width: nat, height: nat, x: int, y: int, diff: Diff)
    requires InImage(width, height, x, y)
    ensures AllWellFormed(width, height, diff, PixelEdges(width, height, x, y, diff))
  {
    var right := OptionalEdge(width, height, diff, x, y, x + 1, y, x < width - 1);
    var down := OptionalEdge(width, height, diff, x, y, x, y + 1, y < height - 1);
    var downRight := OptionalEdge(width, height, diff, x, y, x + 1, y + 1, x < width - 1 && y < height - 2);
    var upRight := OptionalEdge(width, height, diff, x, y, x + 1, y - 1, x < width - 1 && y > 0);
    assert PixelEdges(width, height, x, y, diff) == right + down + downRight + upRight;
    AllWellFormedConcat(width, height, diff, right, down);
    AllWellFormedConcat(width, height, diff, right + down, downRight);
    AllWellFormedConcat(width, height, diff, right + down + downRight, upRight);
  }

  /** The edge from (x, y) to (x2, y2) when cond holds, and nothing otherwise. */
  ghost function OptionalEdge(width: nat, height: nat, diff: Diff, x: int, y: int, x2: int, y2: int, cond: bool)
    : (s: seq<Edge>)
    requires InImage(width, height, x, y)
    requires cond ==> InImage(width, height, x2, y2) && Linked(height, x, y, x2, y2)
    ensures AllWellFormed(width, height, diff, s)
  {
    if cond then
      LinkedEdgeWellFormed(width, height, diff, x, y, x2, y2);
      [Edge(y * width + x, y2 * width + x2, diff(x, y, x2, y2))]
    else []
  }

  /** Every edge of row y, pixels 0..x-1, is well formed. */
  lemma {:induction false} RowEdgesWellFormed(width: nat, height: nat, y: nat, x: nat, diff: Diff)
    requires y < height && x <= width
    ensures AllWellFormed(width, height, diff, RowEdges(width, height, y, x, diff))
    decreases x
  {
    if x > 0 {
      RowEdgesWellFormed(width, height, y, x - 1, diff);
      PixelEdgesWellFormed(width, height, x - 1, y, diff);
      AllWellFormedConcat(width, height, diff, RowEdges(width, height, y, x - 1, diff),
        PixelEdges(width, height, x - 1, y, diff));
    }
  }

  /** Every edge of the first y rows is well formed. */
  lemma {:induction false} EdgesBeforeWellFormed(width: nat, height: nat, y: nat, diff: Diff)
    requires y <= height
    ensures AllWellFormed(width, height, diff, EdgesBefore(width, height, y, diff))
    decreases y
  {
    if y > 0 {
      EdgesBeforeWellFormed(width, height, y - 1, diff);
      RowEdgesWellFormed(width, height, y - 1, width, diff);
      AllWellFormedConcat(width, height, diff, EdgesBefore(width, height, y - 1, diff),
        RowEdges(width, height, y - 1, width, diff));
    }
  }

  /**
   * Every emitted edge joins two pixels of the image that are Linked, and
   * carries their dissimilarity as its weight.
   */
  lemma EdgesWellFormed(width: nat, height: nat, diff: Diff)
    ensures forall i :: 0 <= i < |GraphEdges(width, height, diff)| ==>
      WellFormed(width, height, diff, GraphEdges(width, height, diff)[i])
  {
    EdgesBeforeWellFormed(width, height, height, diff);
  }

  /** Both endpoints of every emitted edge are vertices of the image graph. */
  lemma EdgeEndpointsInRange(width: nat, height: nat, diff: Diff)
    ensures forall i :: 0 <= i < |GraphEdges(width, height, diff)| ==>
      && 0 <= GraphEdges(width, height, diff)[i].src < width * height
      && 0 <= GraphEdges(width, height, diff)[i].dst < width * height
  {
    var es := GraphEdges(width, height, diff);
    EdgesWellFormed(width, height, diff);
    forall i | 0 <= i < |es| ensures 0 <= es[i].src < width * height && 0 <= es[i].dst < width * height {
      assert WellFormed(width, height, diff, es[i]);
      var x, y, x2, y2 :| Joins(width, height, diff, es[i], x, y, x2, y2);
      VertexInRange(width, height, x, y);
      VertexInRange(width, height, x2, y2);
    }
  }

  predicate SourcesOrdered(s: seq<Edge>)
  {
    forall i, j :: 0 <= i <= j < |s| ==> s[i].src <= s[j].src
  }

  /** Appending a block whose sources all lie above those of a keeps the sources ordered. */
  lemma OrderedConcat(a: seq<Edge>, b: seq<Edge>, lo: int, mid: int, hi: int)
    requires SourcesOrdered(a) && SourcesOrdered(b)
    requires SourcesIn(a, lo, mid) && SourcesIn(b, mid, hi) && lo <= mid <= hi
    ensures SourcesOrdered(a + b) && SourcesIn(a + b, lo, hi)
  {
    var s := a + b;
    forall i, j | 0 <= i <= j < |s| ensures s[i].src <= s[j].src {
      if j < |a| {
        assert s[i] == a[i] && s[j] == a[j];
      } else if i < |a| {
        assert s[i] == a[i] && s[j] == b[j - |a|];
      } else {
        assert s[i] == b[i - |a|] && s[j] == b[j - |a|];
      }
    }
  }

  /** Every edge of s leaves vertex v. */
  predicate AllFrom(s: seq<Edge>, v: int)
  {
    forall i :: 0 <= i < |s| ==> s[i].src == v
  }

  /** Appending the block of vertex v after edges that leave vertices in [lo, v). */
  lemma AppendBlock(a: seq<Edge>, b: seq<Edge>, c: seq<Edge>, lo: int, v: int)
    requires SourcesOrdered(a) && SourcesIn(a, lo, v) && AllFrom(b, v) && lo <= v && c == a + b
    ensures SourcesOrdered(c) && SourcesIn(c, lo, v + 1)
  {
    OrderedConcat(a, b, lo, v, v + 1);
  }

  /** Every edge pixel (x, y) emits leaves its vertex. */
  lemma PixelEdgesSources(width: nat, height: nat, x: int, y: int, diff: Diff)
    ensures AllFrom(PixelEdges(width, height, x, y, diff), y * width + x)
  {
  }

  /** The edges of row y, pixels 0..x-1, leave those pixels, in order. */
  lemma {:induction false} RowEdgesOrdered(width: nat, height: nat, y: nat, x: nat, diff: Diff)
    requires x <= width
    ensures SourcesOrdered(RowEdges(width, height, y, x, diff))
    ensures SourcesIn(RowEdges(width, height, y, x, diff), y * width, y * width + x)
    decreases x
  {
    if x > 0 {
      RowEdgesOrdered(width, height, y, x - 1, diff);
      PixelEdgesSources(width, height, x - 1, y, diff);
      assert SourcesOrdered(RowEdges(width, height, y, x - 1, diff));
      assert SourcesIn(RowEdges(width, height, y, x - 1, diff), y * width, y * width + (x - 1));
      assert AllFrom(PixelEdges(width, height, x - 1, y, diff), y * width + (x - 1));
      assert RowEdges(width, height, y, x, diff) == RowEdges(width, height, y, x - 1, diff) + PixelEdges(width, height, x - 1, y, diff);
      AppendBlock(RowEdges(width, height, y, x - 1, diff), PixelEdges(width, height, x - 1, y, diff),
        RowEdges(width, height, y, x, diff), y * width, y * width + (x - 1));
    }
  }

  /** The edges of the first y rows leave pixels of those rows, in order. */
  lemma {:induction false} EdgesBeforeOrdered(width: nat, height: nat, y: nat, diff: Diff)
    ensures SourcesOrdered(EdgesBefore(width, height, y, diff))
    ensures SourcesIn(EdgesBefore(width, height, y, diff), 0, y * width)
    decreases y
  {
    if y > 0 {
      EdgesBeforeOrdered(width, height, y - 1, diff);
      RowEdgesOrdered(width, height, y - 1, width, diff);
      var mid := (y - 1) * width;
      assert mid + width == y * width by { MulStep(y - 1, width); }
      assert 0 <= mid by { MulMonotone(0, y - 1, width); }
      OrderedConcat(EdgesBefore(width, height, y - 1, diff), RowEdges(width, height, y - 1, width, diff),
        0, mid, mid + width);
    }
  }

  /**
   * Edges come in row-major pixel order: sources never decrease along the
   * list, so all edges of vertex p precede all edges of vertex p + 1.
   */
  lemma EdgesInPixelOrder(width: nat, height: nat, diff: Diff)
    ensures SourcesOrdered(GraphEdges(width, height, diff))
  {
    EdgesBeforeOrdered(width, height, height, diff);
  }

  // ---------------------------------------------------------------------------
  // Which edges are present

  /** Each Linked pair of pixels of the image gets its edge, with its weight. */
  lemma EdgePresent(width: nat, height: nat, diff: Diff, x: int, y: int, x2: int, y2: int)
    requires InImage(width, height, x, y) && InImage(width, height, x2, y2)
    requires Linked(height, x, y, x2, y2)
    ensures Edge(y * width + x, y2 * width + x2, diff(x, y, x2, y2)) in GraphEdges(width, height, diff)
  {
    var e := Edge(y * width + x, y2 * width + x2, diff(x, y, x2, y2));
    assert e in PixelEdges(width, height, x, y, diff);
    PixelPrefix(width, height, x, y, diff);
    var pre := EdgesBefore(width, height, y, diff) + RowEdges(width, height, y, x + 1, diff);
    assert e in pre;
  }

  /**
   * The edge list connects pixel (x, y) to pixel (x2, y2) of the image exactly
   * when they are Linked: a right, down or up-right edge whenever both pixels
   * are in the image, a down-right edge only when y < height - 2.
   */
  lemma Adjacency(width: nat, height: nat, diff: Diff, x: int, y: int, x2: int, y2: int)
    requires InImage(width, height, x, y) && InImage(width, height, x2, y2)
    ensures (exists i :: 0 <= i < |GraphEdges(width, height, diff)|
               && GraphEdges(width, height, diff)[i].src == y * width + x
               && GraphEdges(width, height, diff)[i].dst == y2 * width + x2)
            <==> Linked(height, x, y, x2, y2)
  {
    var es := GraphEdges(width, height, diff);
    if Linked(height, x, y, x2, y2) {
      EdgePresent(width, height, diff, x, y, x2, y2);
      var i :| 0 <= i < |es| && es[i] == Edge(y * width + x, y2 * width + x2, diff(x, y, x2, y2));
    }
    if i :| 0 <= i < |es| && es[i].src == y * width + x && es[i].dst == y2 * width + x2 {
      EdgesWellFormed(width, height, diff);
      assert WellFormed(width, height, diff, es[i]);
      var a, b, a2, b2 :| Joins(width, height, diff, es[i], a, b, a2, b2);
      VertexInjective(width, a, b, x, y);
      VertexInjective(width, a2, b2, x2, y2);
    }
  }

  /**
   * The guard y < height - 2 leaves out the down-right edge of every pixel of
   * the second-to-last row, although its target is in the image.
   */
  lemma SecondToLastRowHasNoDownRightEdge(width: nat, height: nat, diff: Diff, x: int)
    requires height >= 2 && 0 <= x < width - 1
    ensures forall e :: e in GraphEdges(width, height, diff) ==>
      !(e.src == (height - 2) * width + x && e.dst == (height - 1) * width + (x + 1))
  {
    var es := GraphEdges(width, height, diff);
    Adjacency(width, height, diff, x, height - 2, x + 1, height - 1);
    forall e | e in es
      ensures !(e.src == (height - 2) * width + x && e.dst == (height - 1) * width + (x + 1))
    {
      var i :| 0 <= i < |es| && es[i] == e;
    }
  }
}
