/**
 * The disjoint-set structure `segment` works with after clustering: `find`,
 * `size`, `join` and `num_sets` (segment.py:63-72, 84). Its implementation
 * lives in segment_graph, which is not part of this model; here the structure
 * is given by its abstract state -- for every vertex, the root of its
 * component -- and the class UnionFind meets the interface's contracts on that
 * state.
 */
module DisjointSets {

  /** s maps every vertex to a vertex that is a root, and each root to itself. */
  predicate IsPartition(s: seq<int>)
  {
    forall v :: 0 <= v < |s| ==> 0 <= s[v] < |s| && s[s[v]] == s[v]
  }

  /** The number of vertices whose root is r: the size of r's component. */
  function Count(s: seq<int>, r: int): nat
  {
    if s == [] then 0 else (if s[0] == r then 1 else 0) + Count(s[1..], r)
  }

  /** The number of roots among vertices 0 .. k-1. */
  function RootsBelow(s: seq<int>, k: nat): nat
    requires k <= |s|
  {
    if k == 0 then 0 else RootsBelow(s, k - 1) + (if s[k - 1] == k - 1 then 1 else 0)
  }

  /** The number of components. */
  function NumRoots(s: seq<int>): nat
  {
    RootsBelow(s, |s|)
  }

  /** Every vertex whose root is `from` gets root `to`. */
  function Relabel(s: seq<int>, from: int, to: int): seq<int>
  {
    seq(|s|, v requires 0 <= v < |s| => if s[v] == from then to else s[v])
  }

  /** The partition in which every vertex is its own component. */
  function Singletons(n: nat): seq<int>
  {
    seq(n, v => v)
  }

  // ---------------------------------------------------------------------------
  // Counting

  lemma {:induction false} CountRelabel(s: seq<int>, from: int, to: int, r: int)
    requires from != to
    ensures Count(Relabel(s, from, to), r)
            == if r == to then Count(s, to) + Count(s, from) else if r == from then 0 else Count(s, r)
    decreases |s|
  {
    if s != [] {
      assert Relabel(s, from, to)[1..] == Relabel(s[1..], from, to);
      CountRelabel(s[1..], from, to, r);
    }
  }

  /** A vertex whose root is r makes r's component non-empty. */
  lemma {:induction false} CountMember(s: seq<int>, v: int)
    requires 0 <= v < |s|
    ensures Count(s, s[v]) >= 1
    decreases |s|
  {
    if v > 0 {
      CountMember(s[1..], v - 1);
    }
  }

  /** A component with a member has a vertex naming it as root. */
  lemma {:induction false} CountWitness(s: seq<int>, r: int)
    requires Count(s, r) > 0
    ensures exists v :: 0 <= v < |s| && s[v] == r
    decreases |s|
  {
    if s[0] != r {
      CountWitness(s[1..], r);
      var v :| 0 <= v < |s[1..]| && s[1..][v] == r;
      assert s[v + 1] == r;
    }
  }

  /** Every component of a partition has at least its root as member. */
  lemma RootCountPositive(s: seq<int>, r: int)
    requires IsPartition(s) && 0 <= r < |s| && s[r] == r
    ensures Count(s, r) >= 1
  {
    CountMember(s, r);
  }

  lemma {:induction false} RootsBelowRelabel(s: seq<int>, from: int, to: int, k: nat)
    requires 0 <= from < |s| && 0 <= to < |s| && from != to
    requires s[from] == from && s[to] == to
    requires k <= |s|
    ensures RootsBelow(Relabel(s, from, to), k) == RootsBelow(s, k) - (if from < k then 1 else 0)
    ensures from < k ==> RootsBelow(s, k) >= 1
    decreases k
  {
    if k > 0 {
      RootsBelowRelabel(s, from, to, k - 1);
    }
  }

  lemma {:induction false} RootsBelowBound(s: seq<int>, k: nat)
    requires k <= |s|
    ensures RootsBelow(s, k) <= k
    decreases k
  {
    if k > 0 {
      RootsBelowBound(s, k - 1);
    }
  }

  /** There are at most as many components as vertices. */
  lemma NumRootsBound(s: seq<int>)
    ensures NumRoots(s) <= |s|
  {
    RootsBelowBound(s, |s|);
  }

  lemma {:induction false} CountSingletons(n: nat, r: int)
    requires 0 <= r < n
    ensures Count(Singletons(n), r) == 1
  {
    var s := Singletons(n);
    CountMember(s, r);
    if Count(s, r) > 1 {
      CountAtMostOne(s, r, 0);
    }
  }

  lemma {:induction false} CountAtMostOne(s: seq<int>, r: int, off: int)
    requires forall v :: 0 <= v < |s| ==> s[v] == v + off
    ensures Count(s, r) <= 1
    decreases |s|
  {
    if s != [] {
      CountAtMostOne(s[1..], r, off + 1);
      if s[0] == r && Count(s[1..], r) > 0 {
        CountWitness(s[1..], r);
      }
    }
  }

  lemma {:induction false} RootsBelowSingletons(n: nat, k: nat)
    requires k <= n
    ensures RootsBelow(Singletons(n), k) == k
    decreases k
  {
    if k > 0 {
      RootsBelowSingletons(n, k - 1);
    }
  }

  /** Singletons(n) is a partition of n vertices into n components of size 1. */
  lemma SingletonsPartition(n: nat)
    ensures IsPartition(Singletons(n))
    ensures NumRoots(Singletons(n)) == n
    ensures forall r :: 0 <= r < n ==> Count(Singletons(n), r) == 1
  {
    RootsBelowSingletons(n, n);
    forall r | 0 <= r < n ensures Count(Singletons(n), r) == 1 {
      CountSingletons(n, r);
    }
  }

  // ---------------------------------------------------------------------------
  // Component sizes add up to the number of vertices

  /** The number of vertices whose root is below k. */
  function CountBelow(s: seq<int>, k: int): nat
  {
    if s == [] then 0 else (if s[0] < k then 1 else 0) + CountBelow(s[1..], k)
  }

  /** The sizes of the components whose roots are below k, added up. */
  function RootSizes(s: seq<int>, k: nat): nat
    requires k <= |s|
  {
    if k == 0 then 0 else RootSizes(s, k - 1) + (if s[k - 1] == k - 1 then Count(s, k - 1) else 0)
  }

  lemma {:induction false} CountBelowStep(s: seq<int>, k: int)
    ensures CountBelow(s, k + 1) == CountBelow(s, k) + Count(s, k)
    decreases |s|
  {
    if s != [] {
      CountBelowStep(s[1..], k);
    }
  }

  lemma {:induction false} CountBelowAll(s: seq<int>, k: int)
    requires forall v :: 0 <= v < |s| ==> s[v] < k
    ensures CountBelow(s, k) == |s|
    decreases |s|
  {
    if s != [] {
      CountBelowAll(s[1..], k);
    }
  }

  lemma {:induction false} RootSizesCountBelow(s: seq<int>, k: nat)
    requires IsPartition(s) && k <= |s|
    ensures RootSizes(s, k) == CountBelow(s, k)
    decreases k
  {
    if k == 0 {
      CountBelowAll([], 0);
      if CountBelow(s, 0) > 0 {
        NoneBelowZero(s);
      }
    } else {
      RootSizesCountBelow(s, k - 1);
      CountBelowStep(s, k - 1);
      if s[k - 1] != k - 1 && Count(s, k - 1) > 0 {
        CountWitness(s, k - 1);
      }
    }
  }

  lemma {:induction false} NoneBelowZero(s: seq<int>)
    requires forall v :: 0 <= v < |s| ==> 0 <= s[v]
    ensures CountBelow(s, 0) == 0
    decreases |s|
  {
    if s != [] {
      NoneBelowZero(s[1..]);
    }
  }

  /**
   * Every vertex is in exactly one component: the sizes of all components,
   * added up over their roots, give the number of vertices.
   */
  lemma SizesSumToVertexCount(s: seq<int>)
    requires IsPartition(s)
    ensures RootSizes(s, |s|) == |s|
  {
    RootSizesCountBelow(s, |s|);
    CountBelowAll(s, |s|);
  }

  // ---------------------------------------------------------------------------
  // Joining two components

  /**
   * The partition after join(a, b) of two distinct roots: the larger
   * component absorbs the smaller one, and a absorbs b when their sizes are
   * equal.
   */
  function Merge(s: seq<int>, a: int, b: int): (r: seq<int>)
    requires IsPartition(s) && 0 <= a < |s| && 0 <= b < |s|
    requires s[a] == a && s[b] == b && a != b
    ensures IsPartition(r) && |r| == |s|
    ensures r[a] == r[b] == (if Count(s, a) >= Count(s, b) then a else b)
    ensures forall v :: 0 <= v < |s| && (s[v] == a || s[v] == b) ==> r[v] == r[a]
    ensures forall v :: 0 <= v < |s| && s[v] != a && s[v] != b ==> r[v] == s[v]
    ensures Count(r, r[a]) == Count(s, a) + Count(s, b)
    ensures forall x :: x != a && x != b ==> Count(r, x) == Count(s, x)
    ensures NumRoots(r) == NumRoots(s) - 1
  {
    var (winner, loser) := if Count(s, a) >= Count(s, b) then (a, b) else (b, a);
    var r := Relabel(s, loser, winner);
    CountRelabel(s, loser, winner, winner);
    forall x | x != a && x != b ensures Count(r, x) == Count(s, x) {
      CountRelabel(s, loser, winner, x);
    }
    RootsBelowRelabel(s, loser, winner, |s|);
    r
  }

  /** sz records, at every root of s, the size of its component. */
  predicate SizesMatch(s: seq<int>, sz: seq<int>)
  {
    |sz| == |s| && forall r :: 0 <= r < |s| && s[r] == r ==> sz[r] == Count(s, r)
  }

  /** Recording the joined size at the winning root keeps the sizes right. */
  lemma MergeSizes(s: seq<int>, sz: seq<int>, a: int, b: int)
    requires IsPartition(s) && 0 <= a < |s| && 0 <= b < |s|
    requires s[a] == a && s[b] == b && a != b
    requires SizesMatch(s, sz)
    ensures var r := Merge(s, a, b);
      SizesMatch(r, sz[r[a] := sz[a] + sz[b]])
  {
    var r := Merge(s, a, b);
    var sz' := sz[r[a] := sz[a] + sz[b]];
    forall x | 0 <= x < |r| && r[x] == x ensures sz'[x] == Count(r, x) {
      if x != r[a] {
        assert s[x] != a && s[x] != b;
      }
    }
  }

  // ---------------------------------------------------------------------------
  // The structure itself

  /**
   * A disjoint-set structure over the vertices 0 .. n-1. root[v] is the root
   * of v's component, so find needs no path walk; size[r] is the size of the
   * component of root r; sets is the number of components.
   */
  class UnionFind {
    const n: nat
    const root: array<int>
    const size: array<int>
    var sets: nat

    ghost predicate Valid()
      reads this, root, size
    {
      && root.Length == n
      && size.Length == n
      && root != size
      && IsPartition(root[..])
      && SizesMatch(root[..], size[..])
      && sets == NumRoots(root[..])
    }

    /** The abstract state: the root of every vertex. */
    ghost function Partition(): seq<int>
      reads this, root
    {
      root[..]
    }

    /** n singleton components, each of size 1. */
    constructor (n: nat)
      ensures Valid() && this.n == n
      ensures Partition() == Singletons(n) && sets == n
      ensures fresh(root) && fresh(size)
    {
      this.n := n;
      root := new int[n](v => v);
      size := new int[n](_ => 1);
      sets := n;
      new;
      assert root[..] == Singletons(n);
      SingletonsPartition(n);
    }

    /** The root of v's component. */
    method Find(v: int) returns (r: int)
      requires Valid() && 0 <= v < n
      ensures r == Partition()[v]
      ensures 0 <= r < n && Partition()[r] == r
    {
      r := root[v];
    }

    /** The size of the component of root r. */
    method Size(r: int) returns (k: int)
      requires Valid() && 0 <= r < n && Partition()[r] == r
      ensures k == Count(Partition(), r) && k >= 1
    {
      k := size[r];
      RootCountPositive(root[..], r);
    }

    /** The number of components. */
    method NumSets() returns (k: nat)
      requires Valid()
      ensures k == NumRoots(Partition()) && k <= n
    {
      k := sets;
      NumRootsBound(root[..]);
    }

    /** Joins the components of the distinct roots a and b. */
    method Join(a: int, b: int)
      requires Valid() && 0 <= a < n && 0 <= b < n
      requires Partition()[a] == a && Partition()[b] == b && a != b
      modifies this, root, size
      ensures Valid()
      ensures Partition() == Merge(old(Partition()), a, b)
      ensures sets == old(sets) - 1
    {
      ghost var s := root[..];
      ghost var sz := size[..];
      var winner, loser := a, b;
      if size[a] < size[b] {
        winner, loser := b, a;
      }
      var v := 0;
      while v < n
        modifies root
        invariant 0 <= v <= n
        invariant forall i :: 0 <= i < v ==> root[i] == (if s[i] == loser then winner else s[i])
        invariant forall i :: v <= i < n ==> root[i] == s[i]
      {
        if root[v] == loser {
          root[v] := winner;
        }
        v := v + 1;
      }
      assert root[..] == Relabel(s, loser, winner);
      size[winner] := size[a] + size[b];
      assert size[..] == sz[winner := sz[a] + sz[b]];
      MergeSizes(s, sz, a, b);
      sets := sets - 1;
    }
  }
}
