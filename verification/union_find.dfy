/**
 * The disjoint-set forest of src/utils/union-find.ts, as an arena: node `i` has parent
 * `parent[i]` and rank `rank[i]`, and is the representative of its set when `parent[i] == i`.
 * `find` halves paths; `union` links by rank.
 */
module UnionFind {
  import opened Wrappers
  import opened Raster

  /** North/south/east/west edges: the least row, greatest row, greatest column, least column. */
  datatype Box = Box(n: int, s: int, e: int, w: int)

  /**
   * The payload of a `Node`: everything but `parent` and `rank`, which the forest keeps.
   * `children` is optional, as in the source; nothing in the forest fills it.
   */
  datatype Node = Node(
    index: string, x: int, y: int, color: string, box: Box,
    children: Option<seq<Point>>, isEdge: bool)

  datatype Forest = Forest(parent: seq<nat>, rank: seq<nat>, nodes: seq<Node>)

  /** Parents are nodes of the forest, and a parent outranks each of its children. */
  predicate Valid(f: Forest) {
    && |f.rank| == |f.parent|
    && |f.nodes| == |f.parent|
    && (forall i :: 0 <= i < |f.parent| ==> f.parent[i] < |f.parent|)
    && (forall i :: 0 <= i < |f.parent| && f.parent[i] != i ==> f.rank[i] < f.rank[f.parent[i]])
  }

  /** The greatest rank in the forest: it bounds every walk towards a root. */
  function MaxRank(rank: seq<nat>): (m: nat)
    ensures forall i :: 0 <= i < |rank| ==> rank[i] <= m
  {
    if rank == [] then 0
    else
      var m := MaxRank(rank[..|rank| - 1]);
      if m < rank[|rank| - 1] then rank[|rank| - 1] else m
  }

  /** The representative reached from node `i` by following parents. */
  function Root(f: Forest, i: nat): (r: nat)
    requires Valid(f) && i < |f.parent|
    ensures r < |f.parent| && f.parent[r] == r
    ensures f.rank[i] <= f.rank[r]
    decreases MaxRank(f.rank) - f.rank[i]
  {
    if f.parent[i] == i then i else Root(f, f.parent[i])
  }

  /** Nodes `i` and `j` are in one set. */
  predicate SameSet(f: Forest, i: nat, j: nat)
    requires Valid(f) && i < |f.parent| && j < |f.parent|
  {
    Root(f, i) == Root(f, j)
  }

  /**
   * `makeSet(index, x, y, color)` placed in the arena: a fresh node of rank 0 that is its own
   * parent, with the degenerate box of its own pixel; every older node keeps its root.
   */
  function MakeSet(f: Forest, index: string, x: int, y: int, color: string): (g: Forest)
    requires Valid(f)
    ensures Valid(g)
    ensures |g.parent| == |f.parent| + 1
    ensures var m := |f.parent|;
      && g.parent[m] == m && g.rank[m] == 0 && Root(g, m) == m
      && g.nodes[m] == Node(index, x, y, color, Box(y, y, x, x), None, false)
    ensures g.nodes[..|f.parent|] == f.nodes && g.rank[..|f.parent|] == f.rank
    ensures forall j :: 0 <= j < |f.parent| ==> g.parent[j] == f.parent[j] && Root(g, j) == Root(f, j)
  {
    var m := |f.parent|;
    var g := Forest(f.parent + [m], f.rank + [0], f.nodes + [Node(index, x, y, color, Box(y, y, x, x), None, false)]);
    assert Valid(g);
    forall j | 0 <= j < m
      ensures Root(g, j) == Root(f, j)
    {
      ExtendKeepsRoot(f, g, j);
    }
    g
  }

  /** A forest that keeps every old parent link gives every old node the same root. */
  lemma {:induction false} ExtendKeepsRoot(f: Forest, g: Forest, j: nat)
    requires Valid(f) && Valid(g) && |f.parent| <= |g.parent| && j < |f.parent|
    requires forall i :: 0 <= i < |f.parent| ==> g.parent[i] == f.parent[i]
    ensures Root(g, j) == Root(f, j)
    decreases MaxRank(f.rank) - f.rank[j]
  {
    if f.parent[j] != j {
      ExtendKeepsRoot(f, g, f.parent[j]);
    }
  }

  /** One path-halving step: node `k` is re-pointed to its grandparent. */
  function Halve(f: Forest, k: nat): Forest
    requires Valid(f) && k < |f.parent|
  {
    f.(parent := f.parent[k := f.parent[f.parent[k]]])
  }

  /** A halving step keeps the forest valid and every node's root. */
  lemma {:induction false} HalveKeepsRoot(f: Forest, k: nat, j: nat)
    requires Valid(f) && k < |f.parent| && j < |f.parent|
    ensures Valid(Halve(f, k))
    ensures Root(Halve(f, k), j) == Root(f, j)
    decreases MaxRank(f.rank) - f.rank[j]
  {
    var h := Halve(f, k);
    assert Valid(h);
    if f.parent[j] == j {
      if j == k {
        assert h.parent[j] == j;
      }
    } else if j == k {
      var p := f.parent[k];
      var gp := f.parent[p];
      HalveKeepsRoot(f, k, gp);
      assert Root(f, gp) == Root(f, p);
    } else {
      HalveKeepsRoot(f, k, f.parent[j]);
    }
  }

  /**
   * `find(node)`: walks to the root, re-pointing each visited node to its grandparent.
   * It returns the root, changes no rank, node or set, and only ever replaces a parent
   * link by the former grandparent link.
   */
  method Find(f: Forest, i: nat) returns (g: Forest, r: nat)
    requires Valid(f) && i < |f.parent|
    ensures Valid(g) && |g.parent| == |f.parent|
    ensures r == Root(f, i) && g.parent[r] == r
    ensures g.rank == f.rank && g.nodes == f.nodes
    ensures forall j :: 0 <= j < |f.parent| ==> Root(g, j) == Root(f, j)
    ensures forall j :: 0 <= j < |f.parent| ==> g.parent[j] == f.parent[j] || g.parent[j] == f.parent[f.parent[j]]
  {
    g := f;
    var node: nat := i;
    while g.parent[node] != node
      invariant Valid(g) && |g.parent| == |f.parent| && node < |g.parent|
      invariant g.rank == f.rank && g.nodes == f.nodes
      invariant Root(g, node) == Root(f, i)
      invariant forall j :: 0 <= j < |f.parent| ==> Root(g, j) == Root(f, j)
      invariant forall j :: 0 <= j < |f.parent| ==> g.parent[j] == f.parent[j] || g.parent[j] == f.parent[f.parent[j]]
      invariant forall j :: 0 <= j < |f.parent| && f.rank[node] <= f.rank[j] ==> g.parent[j] == f.parent[j]
      decreases MaxRank(f.rank) - f.rank[node]
    {
      HalveKeepsRoots(g, node);
      HalveLinks(f, g, node);
      g := Halve(g, node);
      node := g.parent[node];
    }
    r := node;
  }

  /** A halving step keeps the forest valid and every root. */
  lemma HalveKeepsRoots(g: Forest, k: nat)
    requires Valid(g) && k < |g.parent|
    ensures Valid(Halve(g, k))
    ensures forall j :: 0 <= j < |g.parent| ==> Root(Halve(g, k), j) == Root(g, j)
  {
    forall j | 0 <= j < |g.parent|
      ensures Root(Halve(g, k), j) == Root(g, j)
    {
      HalveKeepsRoot(g, k, j);
    }
    HalveKeepsRoot(g, k, k);
  }

  /**
   * Halving at `k`, whose own link is still the original one, re-points it to its original
   * grandparent and leaves every link of a node at least `k`'s new parent's rank original.
   */
  lemma HalveLinks(f: Forest, g: Forest, k: nat)
    requires Valid(f) && Valid(g) && |g.parent| == |f.parent| && k < |g.parent|
    requires g.parent[k] != k && g.rank == f.rank
    requires forall j :: 0 <= j < |f.parent| ==> g.parent[j] == f.parent[j] || g.parent[j] == f.parent[f.parent[j]]
    requires forall j :: 0 <= j < |f.parent| && f.rank[k] <= f.rank[j] ==> g.parent[j] == f.parent[j]
    ensures var h := Halve(g, k);
      && f.rank[k] < f.rank[h.parent[k]]
      && (forall j :: 0 <= j < |f.parent| ==> h.parent[j] == f.parent[j] || h.parent[j] == f.parent[f.parent[j]])
      && (forall j :: 0 <= j < |f.parent| && f.rank[h.parent[k]] <= f.rank[j] ==> h.parent[j] == f.parent[j])
  {
    var p := g.parent[k];
    assert p == f.parent[k];
    assert g.parent[p] == f.parent[p];
  }

  /** Hanging root `y` under root `x`, raising `x`'s rank when the two ranks were equal. */
  function Link(f: Forest, x: nat, y: nat): Forest
    requires Valid(f) && x < |f.parent| && y < |f.parent|
  {
    Forest(f.parent[y := x],
           if f.rank[x] == f.rank[y] then f.rank[x := f.rank[x] + 1] else f.rank,
           f.nodes)
  }

  /** Linking two distinct roots keeps the forest valid and sends exactly `y`'s set to `x`. */
  lemma {:induction false} LinkRoot(f: Forest, x: nat, y: nat, j: nat)
    requires Valid(f) && x < |f.parent| && y < |f.parent| && j < |f.parent|
    requires f.parent[x] == x && f.parent[y] == y && x != y && f.rank[y] <= f.rank[x]
    ensures Valid(Link(f, x, y))
    ensures Root(Link(f, x, y), j) == if Root(f, j) == y then x else Root(f, j)
    decreases MaxRank(f.rank) - f.rank[j]
  {
    var g := Link(f, x, y);
    assert Valid(g);
    if j == y {
      assert Root(g, x) == x;
    } else if f.parent[j] != j {
      LinkRoot(f, x, y, f.parent[j]);
    }
  }

  /**
   * In `g`, two nodes share a set exactly when they did in `f`, or one was with `a` and the
   * other with `b`: the sets of `a` and `b` are merged and no other set changes.
   */
  ghost predicate Merges(f: Forest, g: Forest, a: nat, b: nat)
    requires Valid(f) && Valid(g) && |g.parent| == |f.parent| && a < |f.parent| && b < |f.parent|
  {
    forall u, v :: 0 <= u < |f.parent| && 0 <= v < |f.parent| ==>
      (SameSet(g, u, v) <==>
        || SameSet(f, u, v)
        || (SameSet(f, u, a) && SameSet(f, b, v))
        || (SameSet(f, u, b) && SameSet(f, a, v)))
  }

  /**
   * `union(a, b)`: nothing changes when the two already share a root (apart from the paths the
   * two finds halve); otherwise the root of higher rank survives, the first argument's root on a
   * tie (whose rank then rises by one), and exactly the two sets involved are merged.
   */
  method Union(f: Forest, a: nat, b: nat) returns (g: Forest)
    requires Valid(f) && a < |f.parent| && b < |f.parent|
    ensures Valid(g) && |g.parent| == |f.parent| && g.nodes == f.nodes
    ensures SameSet(g, a, b) && Merges(f, g, a, b)
    ensures Root(f, a) == Root(f, b) ==>
      g.rank == f.rank && forall j :: 0 <= j < |f.parent| ==> Root(g, j) == Root(f, j)
    ensures var ra, rb := Root(f, a), Root(f, b);
      ra != rb ==>
        && (f.rank[ra] < f.rank[rb] ==> g.parent[ra] == rb && g.parent[rb] == rb && g.rank == f.rank)
        && (f.rank[rb] < f.rank[ra] ==> g.parent[rb] == ra && g.parent[ra] == ra && g.rank == f.rank)
        && (f.rank[ra] == f.rank[rb] ==>
              g.parent[rb] == ra && g.parent[ra] == ra && g.rank == f.rank[ra := f.rank[ra] + 1])
  {
    var f1, x := Find(f, a);
    var f2, y := Find(f1, b);
    if x == y {
      MergesByRoots(f, f2, a, b, x, y);
      return f2;
    }
    if f2.rank[x] < f2.rank[y] {
      x, y := y, x;
    }
    assert f2.parent[x] == x && f2.parent[y] == y && f2.rank == f.rank;
    g := Link(f2, x, y);
    assert g.parent[y] == x && g.parent[x] == x;
    LinkMerges(f, f2, a, b, x, y);
  }

  /** Linking the roots of the sets of `a` and `b` merges exactly those two sets. */
  lemma LinkMerges(f: Forest, f2: Forest, a: nat, b: nat, x: nat, y: nat)
    requires Valid(f) && Valid(f2) && |f2.parent| == |f.parent| && a < |f.parent| && b < |f.parent|
    requires forall j :: 0 <= j < |f.parent| ==> Root(f2, j) == Root(f, j)
    requires (x == Root(f, a) && y == Root(f, b)) || (x == Root(f, b) && y == Root(f, a))
    requires f2.parent[x] == x && f2.parent[y] == y && x != y && f2.rank[y] <= f2.rank[x]
    ensures Valid(Link(f2, x, y)) && SameSet(Link(f2, x, y), a, b) && Merges(f, Link(f2, x, y), a, b)
  {
    var g := Link(f2, x, y);
    LinkRoot(f2, x, y, x);
    forall j | 0 <= j < |f.parent|
      ensures Root(g, j) == if Root(f, j) == y then x else Root(f, j)
    {
      LinkRoot(f2, x, y, j);
    }
    MergesByRoots(f, g, a, b, x, y);
  }

  /** Sending the root `y` of one of the two sets to the root `x` of the other merges them. */
  lemma MergesByRoots(f: Forest, g: Forest, a: nat, b: nat, x: nat, y: nat)
    requires Valid(f) && Valid(g) && |g.parent| == |f.parent| && a < |f.parent| && b < |f.parent|
    requires (x == Root(f, a) && y == Root(f, b)) || (x == Root(f, b) && y == Root(f, a))
    requires forall j :: 0 <= j < |f.parent| ==> Root(g, j) == if Root(f, j) == y then x else Root(f, j)
    ensures Merges(f, g, a, b)
  {
  }
}
