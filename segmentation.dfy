/**
 * The driver `segment` (segment.py:22-104) without smoothing, clustering and
 * display: it builds the edge table of the pixel graph, merges components
 * that are still too small along the graph's edges, counts the components and
 * labels every pixel with the root of its component.
 */
module Segmentation {
  import opened PixelGraph
  import opened DisjointSets

  // ---------------------------------------------------------------------------
  // Building the graph

  /**
   * The loop body of the graph construction: writes the edges of pixel (x, y)
   * into the table from position num on, in the order the source tests them.
   */
  method EmitPixelEdges(edges: array<Edge>, num: nat, width: nat, height: nat, x: int, y: int, diff: Diff)
    returns (next: nat)
    requires num + 4 <= edges.Length
    modifies edges
    ensures next <= num + 4
    ensures edges[..next] == old(edges[..num]) + PixelEdges(width, height, x, y, diff)
    ensures forall i :: next <= i < edges.Length ==> edges[i] == old(edges[i])
  {
    next := num;
    if x < width - 1 {
      edges[next] := Edge(y * width + x, y * width + (x + 1), diff(x, y, x + 1, y));
      next := next + 1;
    }
    if y < height - 1 {
      edges[next] := Edge(y * width + x, (y + 1) * width + x, diff(x, y, x, y + 1));
      next := next + 1;
    }
    if x < width - 1 && y < height - 2 {
      edges[next] := Edge(y * width + x, (y + 1) * width + (x + 1), diff(x, y, x + 1, y + 1));
      next := next + 1;
    }
    if x < width - 1 && y > 0 {
      edges[next] := Edge(y * width + x, (y - 1) * width + (x + 1), diff(x, y, x + 1, y - 1));
      next := next + 1;
    }
  }

  /** The inner loop of the graph construction: the pixels of row y, left to right. */
  method EmitRowEdges(edges: array<Edge>, num: nat, width: nat, height: nat, y: int, diff: Diff)
    returns (next: nat)
    requires num + 4 * width <= edges.Length
    requires forall i :: num <= i < edges.Length ==> edges[i] == ZeroEdge
    modifies edges
    ensures next <= num + 4 * width
    ensures edges[..next] == old(edges[..num]) + RowEdges(width, height, y, width, diff)
    ensures forall i :: next <= i < edges.Length ==> edges[i] == ZeroEdge
  {
    ghost var prefix := edges[..num];
    next := num;
    var x := 0;
    while x < width
      invariant 0 <= x <= width
      invariant next + 4 * (width - x) <= num + 4 * width
      invariant edges[..next] == prefix + RowEdges(width, height, y, x, diff)
      invariant forall i :: next <= i < edges.Length ==> edges[i] == ZeroEdge
    {
      ghost var row := RowEdges(width, height, y, x, diff);
      ghost var pixel := PixelEdges(width, height, x, y, diff);
      next := EmitPixelEdges(edges, next, width, height, x, y, diff);
      AppendAssoc(prefix, row, pixel);
      assert RowEdges(width, height, y, x + 1, diff) == row + pixel;
      x := x + 1;
    }
  }

  /**
   * Fills a zeroed table of width * height * 4 edges, pixel by pixel in
   * row-major order, and returns it with the number of edges written.
   */
  method BuildGraph(width: nat, height: nat, diff: Diff) returns (edges: array<Edge>, num: nat)
    ensures fresh(edges) && edges.Length == width * height * 4
    ensures num <= edges.Length
    ensures edges[..num] == GraphEdges(width, height, diff)
    ensures forall i :: num <= i < edges.Length ==> edges[i] == ZeroEdge
  {
    edges := new Edge[width * height * 4](_ => ZeroEdge);
    num := 0;
    var y := 0;
    while y < height
      invariant 0 <= y <= height
      invariant num <= 4 * (y * width) <= edges.Length
      invariant edges[..num] == EdgesBefore(width, height, y, diff)
      invariant forall i :: num <= i < edges.Length ==> edges[i] == ZeroEdge
    {
      MulStep(y, width);
      RowStartInRange(width, height, y + 1);
      ghost var before := edges[..num];
      num := EmitRowEdges(edges, num, width, height, y, diff);
      assert edges[..num] == before + RowEdges(width, height, y, width, diff)
                          == EdgesBefore(width, height, y + 1, diff);
      y := y + 1;
    }
  }

  // ---------------------------------------------------------------------------
  // Merging small components

  /** Both endpoints of every edge are among the vertices 0 .. n-1. */
  predicate EndpointsIn(edges: seq<Edge>, n: int)
  {
    forall i :: 0 <= i < |edges| ==> 0 <= edges[i].src < n && 0 <= edges[i].dst < n
  }

  /**
   * Whether the pass joins the components of e's endpoints: they differ, and
   * one of them has fewer than minSize vertices.
   */
  predicate ForcesJoin(s: seq<int>, e: Edge, minSize: int)
    requires 0 <= e.src < |s| && 0 <= e.dst < |s|
  {
    s[e.src] != s[e.dst] && (Count(s, s[e.src]) < minSize || Count(s, s[e.dst]) < minSize)
  }

  /** r is s with some components joined: vertices together in s stay together. */
  predicate Coarsens(s: seq<int>, r: seq<int>)
  {
    && |r| == |s|
    && (forall i, j :: 0 <= i < |s| && 0 <= j < |s| && s[i] == s[j] ==> r[i] == r[j])
    && (forall v :: 0 <= v < |s| ==> Count(r, r[v]) >= Count(s, s[v]))
  }

  /** The partition after the pass has looked at edge e. */
  function MergeStep(s: seq<int>, e: Edge, minSize: int): (r: seq<int>)
    requires IsPartition(s) && 0 <= e.src < |s| && 0 <= e.dst < |s|
    ensures IsPartition(r) && Coarsens(s, r)
    ensures !ForcesJoin(s, e, minSize) ==> r == s
    ensures Count(s, s[e.src]) >= minSize && Count(s, s[e.dst]) >= minSize ==> r == s
    ensures ForcesJoin(s, e, minSize) ==> r[e.src] == r[e.dst] && NumRoots(r) == NumRoots(s) - 1
    ensures Settled(r, e, minSize)
  {
    if ForcesJoin(s, e, minSize) then Merge(s, s[e.src], s[e.dst]) else s
  }

  /** The partition after the pass has looked at every edge, in order. */
  function PostProcess(s: seq<int>, edges: seq<Edge>, minSize: int): (r: seq<int>)
    requires IsPartition(s) && EndpointsIn(edges, |s|)
    ensures IsPartition(r) && |r| == |s|
    decreases |edges|
  {
    if edges == [] then s
    else
      var prefix := edges[..|edges| - 1];
      assert EndpointsIn(prefix, |s|);
      MergeStep(PostProcess(s, prefix, minSize), edges[|edges| - 1], minSize)
  }

  /** The number of joins the pass performs. */
  function JoinCount(s: seq<int>, edges: seq<Edge>, minSize: int): nat
    requires IsPartition(s) && EndpointsIn(edges, |s|)
    decreases |edges|
  {
    if edges == [] then 0
    else
      var prefix := edges[..|edges| - 1];
      assert EndpointsIn(prefix, |s|);
      JoinCount(s, prefix, minSize)
      + if ForcesJoin(PostProcess(s, prefix, minSize), edges[|edges| - 1], minSize) then 1 else 0
  }

  lemma CoarsensTransitive(s: seq<int>, t: seq<int>, r: seq<int>)
    requires Coarsens(s, t) && Coarsens(t, r)
    ensures Coarsens(s, r)
  {
  }

  /** The pass only joins components, and no component shrinks. */
  lemma {:induction false} PostProcessCoarsens(s: seq<int>, edges: seq<Edge>, minSize: int)
    requires IsPartition(s) && EndpointsIn(edges, |s|)
    ensures Coarsens(s, PostProcess(s, edges, minSize))
    decreases |edges|
  {
    if edges != [] {
      var prefix := edges[..|edges| - 1];
      assert EndpointsIn(prefix, |s|);
      PostProcessCoarsens(s, prefix, minSize);
      var p := PostProcess(s, prefix, minSize);
      CoarsensTransitive(s, p, MergeStep(p, edges[|edges| - 1], minSize));
    }
  }

  /**
   * Every join removes exactly one component, so the pass ends with
   * NumRoots(s) - JoinCount components, at most |s| - JoinCount.
   */
  lemma {:induction false} PostProcessRoots(s: seq<int>, edges: seq<Edge>, minSize: int)
    requires IsPartition(s) && EndpointsIn(edges, |s|)
    ensures NumRoots(PostProcess(s, edges, minSize)) + JoinCount(s, edges, minSize) == NumRoots(s)
    ensures NumRoots(PostProcess(s, edges, minSize)) <= |s| - JoinCount(s, edges, minSize)
    decreases |edges|
  {
    if edges != [] {
      var prefix := edges[..|edges| - 1];
      assert EndpointsIn(prefix, |s|);
      PostProcessRoots(s, prefix, minSize);
    }
    NumRootsBound(s);
  }

  /**
   * The endpoints of e are in one component of r, or both their components
   * have at least minSize vertices: the pass has nothing left to do for e.
   */
  predicate Settled(r: seq<int>, e: Edge, minSize: int)
    requires 0 <= e.src < |r| && 0 <= e.dst < |r|
  {
    r[e.src] == r[e.dst] || (Count(r, r[e.src]) >= minSize && Count(r, r[e.dst]) >= minSize)
  }

  /** Joining components keeps a settled edge settled. */
  lemma SettledStable(p: seq<int>, r: seq<int>, e: Edge, minSize: int)
    requires Coarsens(p, r) && 0 <= e.src < |p| && 0 <= e.dst < |p|
    requires Settled(p, e, minSize)
    ensures Settled(r, e, minSize)
  {
  }

  /** Joining components keeps a list of settled edges settled. */
  lemma SettledExtend(p: seq<int>, r: seq<int>, prefix: seq<Edge>, e: Edge, minSize: int)
    requires Coarsens(p, r) && EndpointsIn(prefix, |p|)
    requires 0 <= e.src < |p| && 0 <= e.dst < |p|
    requires forall i :: 0 <= i < |prefix| ==> Settled(p, prefix[i], minSize)
    requires Settled(r, e, minSize)
    ensures EndpointsIn(prefix + [e], |r|)
    ensures forall i :: 0 <= i < |prefix + [e]| ==> Settled(r, (prefix + [e])[i], minSize)
  {
    forall i | 0 <= i < |prefix| ensures Settled(r, prefix[i], minSize) {
      assert prefix[i] == (prefix + [e])[i];
      SettledStable(p, r, prefix[i], minSize);
    }
  }

  /** After the pass, every edge it looked at is settled. */
  lemma {:induction false} PostProcessSettles(s: seq<int>, edges: seq<Edge>, minSize: int)
    requires IsPartition(s) && EndpointsIn(edges, |s|)
    ensures forall i :: 0 <= i < |edges| ==> Settled(PostProcess(s, edges, minSize), edges[i], minSize)
    decreases |edges|
  {
    if edges != [] {
      var prefix := edges[..|edges| - 1];
      var e := edges[|edges| - 1];
      assert edges == prefix + [e];
      assert EndpointsIn(prefix, |s|);
      PostProcessSettles(s, prefix, minSize);
      var p := PostProcess(s, prefix, minSize);
      SettledExtend(p, MergeStep(p, e, minSize), prefix, e, minSize);
    }
  }

  /** With minSize at most 1 no component is too small, and the pass changes nothing. */
  lemma {:induction false} PostProcessIdentity(s: seq<int>, edges: seq<Edge>, minSize: int)
    requires IsPartition(s) && EndpointsIn(edges, |s|) && minSize <= 1
    ensures PostProcess(s, edges, minSize) == s
    ensures JoinCount(s, edges, minSize) == 0
    decreases |edges|
  {
    if edges != [] {
      var prefix := edges[..|edges| - 1];
      assert EndpointsIn(prefix, |s|);
      PostProcessIdentity(s, prefix, minSize);
      var e := edges[|edges| - 1];
      RootCountPositive(s, s[e.src]);
      RootCountPositive(s, s[e.dst]);
    }
  }

  /** The pass over the first i + 1 edges is the pass over the first i, then edge i. */
  lemma PostProcessStep(s: seq<int>, edges: seq<Edge>, i: nat, minSize: int)
    requires IsPartition(s) && EndpointsIn(edges, |s|) && i < |edges|
    ensures EndpointsIn(edges[..i], |s|) && EndpointsIn(edges[..i + 1], |s|)
    ensures PostProcess(s, edges[..i + 1], minSize)
            == MergeStep(PostProcess(s, edges[..i], minSize), edges[i], minSize)
  {
    assert edges[..i + 1][..i] == edges[..i];
  }

  /**
   * One iteration of the pass: finds the roots a and b of e's endpoints and
   * joins them when they differ and one of their components is smaller than
   * minSize (the size of b is only asked for when a's is large enough).
   */
  method MergeAlong(u: UnionFind, e: Edge, minSize: int)
    requires u.Valid() && 0 <= e.src < u.n && 0 <= e.dst < u.n
    modifies u, u.root, u.size
    ensures u.Valid()
    ensures u.Partition() == MergeStep(old(u.Partition()), e, minSize)
  {
    var a := u.Find(e.src);
    var b := u.Find(e.dst);
    if a != b {
      var small := false;
      var sizeA := u.Size(a);
      if sizeA < minSize {
        small := true;
      } else {
        var sizeB := u.Size(b);
        small := sizeB < minSize;
      }
      if small {
        u.Join(a, b);
      }
    }
  }

  /**
   * Runs the pass over the first num edges of the table on the forest u,
   * joining a and b when they differ and one of them is smaller than minSize.
   */
  method MergeSmallComponents(u: UnionFind, edges: array<Edge>, num: nat, minSize: int)
    requires u.Valid() && num <= edges.Length && EndpointsIn(edges[..num], u.n)
    modifies u, u.root, u.size
    ensures u.Valid()
    ensures u.Partition() == PostProcess(old(u.Partition()), edges[..num], minSize)
  {
    ghost var s := u.Partition();
    ghost var all := edges[..num];
    var i := 0;
    while i < num
      invariant 0 <= i <= num
      invariant u.Valid()
      invariant EndpointsIn(all[..i], |s|)
      invariant u.Partition() == PostProcess(s, all[..i], minSize)
    {
      var e := edges[i];
      assert e == all[i];
      ghost var p := u.Partition();
      MergeAlong(u, e, minSize);
      PostProcessStep(s, all, i, minSize);
      assert u.Partition() == MergeStep(p, e, minSize) == PostProcess(s, all[..i + 1], minSize);
      i := i + 1;
    }
    assert all == all[..i];
  }

  // ---------------------------------------------------------------------------
  // Labelling

  /** Labels every pixel (x, y) with the root of its vertex y * width + x. */
  method LabelPixels(u: UnionFind, width: nat, height: nat) returns (output: array2<int>)
    requires u.Valid() && u.n == width * height
    ensures fresh(output) && output.Length0 == height && output.Length1 == width
    ensures forall y, x :: 0 <= y < height && 0 <= x < width ==>
      output[y, x] == u.Partition()[Vertex(width, height, x, y)]
    ensures forall y, x :: 0 <= y < height && 0 <= x < width ==>
      0 <= output[y, x] < width * height && u.Partition()[output[y, x]] == output[y, x]
    ensures forall y1, x1, y2, x2 :: InImage(width, height, x1, y1) && InImage(width, height, x2, y2) ==>
      (output[y1, x1] == output[y2, x2]
       <==> u.Partition()[Vertex(width, height, x1, y1)] == u.Partition()[Vertex(width, height, x2, y2)])
  {
    output := new int[height, width]((_, _) => 0);
    var y := 0;
    while y < height
      invariant 0 <= y <= height
      invariant forall j, i :: 0 <= j < y && 0 <= i < width ==>
        output[j, i] == u.Partition()[Vertex(width, height, i, j)]
    {
      var x := 0;
      while x < width
        invariant 0 <= x <= width
        invariant forall j, i :: 0 <= j < y && 0 <= i < width ==>
          output[j, i] == u.Partition()[Vertex(width, height, i, j)]
        invariant forall i :: 0 <= i < x ==> output[y, i] == u.Partition()[Vertex(width, height, i, y)]
      {
        var comp := u.Find(Vertex(width, height, x, y));
        output[y, x] := comp;
        x := x + 1;
      }
      y := y + 1;
    }
  }

  // ---------------------------------------------------------------------------
  // The driver

  /**
   * The effect of the clustering step on the edge table: it leaves the first
   * num rows holding the same edges, in the order given by `order`.
   */
  method ReorderEdges(edges: array<Edge>, num: nat, order: seq<Edge>)
    requires num <= edges.Length && |order| == num
    requires multiset(order) == multiset(edges[..num])
    modifies edges
    ensures edges[..num] == order
    ensures multiset(edges[..num]) == old(multiset(edges[..num]))
    ensures forall i :: num <= i < edges.Length ==> edges[i] == old(edges[i])
  {
    var i := 0;
    while i < num
      invariant 0 <= i <= num
      invariant forall j :: 0 <= j < i ==> edges[j] == order[j]
      invariant forall j :: num <= j < edges.Length ==> edges[j] == old(edges[j])
    {
      edges[i] := order[i];
      i := i + 1;
    }
    assert edges[..num] == order;
  }

  /** A list holding the same edges as the built graph has endpoints that are vertices. */
  lemma PermutedEndpointsIn(width: nat, height: nat, diff: Diff, order: seq<Edge>)
    requires multiset(order) == multiset(GraphEdges(width, height, diff))
    ensures EndpointsIn(order, width * height)
  {
    var g := GraphEdges(width, height, diff);
    EdgeEndpointsInRange(width, height, diff);
    forall i | 0 <= i < |order| ensures 0 <= order[i].src < width * height && 0 <= order[i].dst < width * height {
      assert order[i] in multiset(g);
      var k :| 0 <= k < |g| && g[k] == order[i];
    }
  }

  /**
   * Whatever order the pass visits the built edges in, afterwards every built
   * edge is settled: its endpoints share a component, or both components have
   * at least minSize vertices.
   */
  lemma PermutedPassSettles(s: seq<int>, width: nat, height: nat, diff: Diff, order: seq<Edge>, minSize: int)
    requires IsPartition(s) && |s| == width * height
    requires multiset(order) == multiset(GraphEdges(width, height, diff))
    ensures EndpointsIn(order, |s|) && EndpointsIn(GraphEdges(width, height, diff), |s|)
    ensures forall i :: 0 <= i < |GraphEdges(width, height, diff)| ==>
      Settled(PostProcess(s, order, minSize), GraphEdges(width, height, diff)[i], minSize)
  {
    var g := GraphEdges(width, height, diff);
    EdgeEndpointsInRange(width, height, diff);
    PermutedEndpointsIn(width, height, diff, order);
    PostProcessSettles(s, order, minSize);
    forall i | 0 <= i < |g| ensures Settled(PostProcess(s, order, minSize), g[i], minSize) {
      assert g[i] in multiset(order);
      var k :| 0 <= k < |order| && order[k] == g[i];
    }
  }

  /**
   * Builds the graph; u is the forest the clustering step made from it, and
   * order is the order that step left the edge table in (any rearrangement
   * of the built edges). Runs the small-component pass over the table, counts
   * the components and labels the pixels.
   */
  method Segment(width: nat, height: nat, diff: Diff, minSize: int, u: UnionFind, order: seq<Edge>)
    returns (output: array2<int>, numCc: nat)
    requires u.Valid() && u.n == width * height
    requires multiset(order) == multiset(GraphEdges(width, height, diff))
    modifies u, u.root, u.size
    ensures u.Valid()
    ensures EndpointsIn(order, width * height) && EndpointsIn(GraphEdges(width, height, diff), width * height)
    ensures u.Partition() == PostProcess(old(u.Partition()), order, minSize)
    ensures forall i :: 0 <= i < |GraphEdges(width, height, diff)| ==>
      Settled(u.Partition(), GraphEdges(width, height, diff)[i], minSize)
    ensures numCc == NumRoots(u.Partition()) && numCc <= width * height
    ensures fresh(output) && output.Length0 == height && output.Length1 == width
    ensures forall y, x :: 0 <= y < height && 0 <= x < width ==>
      output[y, x] == u.Partition()[Vertex(width, height, x, y)]
    ensures forall y1, x1, y2, x2 :: InImage(width, height, x1, y1) && InImage(width, height, x2, y2) ==>
      (output[y1, x1] == output[y2, x2]
       <==> u.Partition()[Vertex(width, height, x1, y1)] == u.Partition()[Vertex(width, height, x2, y2)])
  {
    var edges, num := BuildGraph(width, height, diff);
    assert |order| == |multiset(order)| == |multiset(edges[..num])| == num;
    ReorderEdges(edges, num, order);
    ghost var s := u.Partition();
    PermutedPassSettles(s, width, height, diff, order, minSize);
    MergeSmallComponents(u, edges, num, minSize);
    numCc := u.NumSets();
    output := LabelPixels(u, width, height);
  }
}
