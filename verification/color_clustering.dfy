/**
 * The DBSCAN-style labelling of src/utils/colorClustering.ts over the children of one segment.
 * Children are addressed by their position in `children`, which stands for object identity
 * (`pointP == pointQ`); their `label` fields are a sequence of the same length.
 */
module ColorClustering {
  import opened Wrappers
  import opened Hex
  import opened Raster

  /** A child's `label`: absent, `"Noise"`, or the cluster number `String(C)`. */
  datatype Label = Unlabelled | Noise | Cluster(id: nat)

  function Abs(a: int): nat {
    if a < 0 then -a else a
  }

  /** `Math.abs(or - pr) + Math.abs(og - pg) + Math.abs(ob - pb)`. */
  function L1(a: Rgb, b: Rgb): nat {
    Abs(a.r - b.r) + Abs(a.g - b.g) + Abs(a.b - b.b)
  }

  /**
   * Child `j`'s colour lies strictly within `eps` of `p`'s. When either's bytes lie outside the
   * buffer a channel reads `undefined`, the distance is `NaN`, and `NaN < eps` is false.
   */
  predicate Near(img: Image, cs: seq<Point>, p: Point, eps: int, j: int) {
    && 0 <= j < |cs| && Readable(img, cs[j]) && Readable(img, p)
    && L1(Sample(img, cs[j]), Sample(img, p)) < eps
  }

  /** The children among the first `n` that are near `p`, in order. */
  function NearUpTo(img: Image, cs: seq<Point>, p: Point, eps: int, n: nat): (r: seq<nat>)
    requires n <= |cs|
    ensures forall k :: 0 <= k < |r| ==> r[k] < n
    ensures forall k, l :: 0 <= k < l < |r| ==> r[k] < r[l]
    ensures forall j :: j in r <==> j < n && Near(img, cs, p, eps, j)
  {
    if n == 0 then []
    else
      var r := NearUpTo(img, cs, p, eps, n - 1);
      if Near(img, cs, p, eps, n - 1) then r + [n - 1] else r
  }

  /**
   * `pointsInRange(segment, point, eps, img)`: the children, in `children` order, whose colour
   * is within L1 distance strictly below `eps` of `point`'s; nothing when `children` is absent.
   */
  function PointsInRange(img: Image, children: Option<seq<Point>>, p: Point, eps: int): (r: seq<nat>)
    ensures children.None? ==> r == []
    ensures children.Some? ==>
      && (forall k, l :: 0 <= k < l < |r| ==> r[k] < r[l])
      && (forall j :: j in r <==> Near(img, children.value, p, eps, j))
  {
    match children
    case None => []
    case Some(cs) => NearUpTo(img, cs, p, eps, |cs|)
  }

  /** A child whose bytes lie in the buffer is in its own range whenever `eps` is positive. */
  lemma SelfInRange(img: Image, cs: seq<Point>, i: nat, eps: int)
    requires i < |cs| && Readable(img, cs[i]) && 0 < eps
    ensures i in PointsInRange(img, Some(cs), cs[i], eps)
  {
    assert L1(Sample(img, cs[i]), Sample(img, cs[i])) == 0;
  }

  /** A child whose bytes lie outside the buffer is in no range, not even its own. */
  lemma UnreadableInNoRange(img: Image, cs: seq<Point>, i: nat, p: Point, eps: int)
    requires i < |cs| && !Readable(img, cs[i])
    ensures i !in PointsInRange(img, Some(cs), p, eps)
    ensures PointsInRange(img, Some(cs), cs[i], eps) == []
  {
    NoneNear(img, cs, cs[i], eps, |cs|);
  }

  /** Nothing is near a point whose bytes lie outside the buffer. */
  lemma {:induction false} NoneNear(img: Image, cs: seq<Point>, p: Point, eps: int, n: nat)
    requires n <= |cs| && !Readable(img, p)
    ensures NearUpTo(img, cs, p, eps, n) == []
  {
    if n > 0 {
      NoneNear(img, cs, p, eps, n - 1);
    }
  }

  /** The neighbourhood of every child, in `children` order. */
  function Ranges(img: Image, cs: seq<Point>, eps: int): (nbr: seq<seq<nat>>)
    ensures |nbr| == |cs|
    ensures forall i :: 0 <= i < |cs| ==> nbr[i] == PointsInRange(img, Some(cs), cs[i], eps)
    ensures NeighboursOk(nbr)
  {
    seq(|cs|, i requires 0 <= i < |cs| => PointsInRange(img, Some(cs), cs[i], eps))
  }

  /** Every neighbourhood lists children. */
  predicate NeighboursOk(nbr: seq<seq<nat>>) {
    && (forall i, j :: 0 <= i < |nbr| && j in nbr[i] ==> j < |nbr|)
    && (forall i, l :: 0 <= i < |nbr| && 0 <= l < |nbr[i]| ==> nbr[i][l] < |nbr|)
  }

  /**
   * The labels while `dbscan` has handled the children before `i`, where `nbr[k]` is child
   * `k`'s neighbourhood. `cores` lists, in order, the children that opened clusters 1, 2, ….
   */
  ghost predicate Progress(nbr: seq<seq<nat>>, minPts: int, labels: seq<Label>, lab: seq<Label>, cores: seq<nat>, i: nat)
    requires |labels| == |nbr|
  {
    && |lab| == |nbr| && i <= |nbr|
    && (forall k :: 0 <= k < i ==> lab[k] != Unlabelled)
    && (forall k :: 0 <= k < |nbr| && lab[k] == Unlabelled ==> labels[k] == Unlabelled)
    && Kept(labels, lab)
    && NoiseOk(nbr, minPts, labels, lab)
    && (forall c :: 0 <= c < |cores| ==> cores[c] < i)
    && CoresOk(nbr, minPts, labels, lab, cores)
    && GrownOk(nbr, labels, lab, cores)
  }

  /** A cluster number a child had on input is never changed. */
  ghost predicate Kept(labels: seq<Label>, lab: seq<Label>)
    requires |lab| == |labels|
  {
    forall k :: 0 <= k < |labels| && labels[k].Cluster? ==> lab[k] == labels[k]
  }

  /** A child newly marked `Noise` was unlabelled and had fewer than `minPts` neighbours. */
  ghost predicate NoiseOk(nbr: seq<seq<nat>>, minPts: int, labels: seq<Label>, lab: seq<Label>)
    requires |labels| == |nbr| && |lab| == |nbr|
  {
    forall k :: 0 <= k < |nbr| && lab[k] == Noise && labels[k] != Noise ==>
      labels[k] == Unlabelled && |nbr[k]| < minPts
  }

  /**
   * The cores are increasing, were unlabelled, have at least `minPts` neighbours, and carry
   * their own cluster numbers 1, 2, ….
   */
  ghost predicate CoresOk(nbr: seq<seq<nat>>, minPts: int, labels: seq<Label>, lab: seq<Label>, cores: seq<nat>)
    requires |labels| == |nbr| && |lab| == |nbr|
  {
    && (forall c, d :: 0 <= c < d < |cores| ==> cores[c] < cores[d])
    && (forall c :: 0 <= c < |cores| ==>
          && cores[c] < |nbr| && labels[cores[c]] == Unlabelled
          && |nbr[cores[c]]| >= minPts && lab[cores[c]] == Cluster(c + 1))
  }

  /**
   * A child whose label changed to cluster `c` is core `c` itself or one of its direct
   * neighbours: clusters never grow through a neighbour's neighbours.
   */
  ghost predicate GrownOk(nbr: seq<seq<nat>>, labels: seq<Label>, lab: seq<Label>, cores: seq<nat>)
    requires |labels| == |nbr| && |lab| == |nbr|
    requires forall c :: 0 <= c < |cores| ==> cores[c] < |nbr|
  {
    forall k :: 0 <= k < |nbr| && lab[k] != labels[k] && lab[k].Cluster? ==>
      && 1 <= lab[k].id <= |cores|
      && (k == cores[lab[k].id - 1] || k in nbr[cores[lab[k].id - 1]])
  }

  /** None of the first `n` cores is child `k` or has it as a neighbour. */
  ghost predicate Unreached(nbr: seq<seq<nat>>, cores: seq<nat>, n: int, k: nat) {
    forall d :: 0 <= d < n && d < |cores| && cores[d] < |nbr| ==> k != cores[d] && k !in nbr[cores[d]]
  }

  /**
   * A child whose label changed to cluster `c` was reached by no earlier core: the first core
   * to reach a child keeps it (`if (pointQ.label) return`).
   */
  ghost predicate FirstReach(nbr: seq<seq<nat>>, labels: seq<Label>, lab: seq<Label>, cores: seq<nat>) {
    forall k :: 0 <= k < |lab| && k < |labels| && lab[k] != labels[k] && lab[k].Cluster? ==>
      Unreached(nbr, cores, lab[k].id - 1, k)
  }

  /** No core before position `k` has child `k` as a neighbour. */
  ghost predicate EarlierUnreached(nbr: seq<seq<nat>>, cores: seq<nat>, k: nat) {
    forall d :: 0 <= d < |cores| && cores[d] < k && cores[d] < |nbr| ==> k !in nbr[cores[d]]
  }

  /**
   * Every child before `i` that was unlabelled, has at least `minPts` neighbours and is no
   * neighbour of an earlier core opened a cluster: it was still unlabelled at its turn.
   */
  ghost predicate CoresComplete(nbr: seq<seq<nat>>, minPts: int, labels: seq<Label>, cores: seq<nat>, i: nat) {
    forall k ::
      && 0 <= k < i && k < |nbr| && k < |labels| && labels[k] == Unlabelled && |nbr[k]| >= minPts
      && EarlierUnreached(nbr, cores, k)
      ==> k in cores
  }

  /** Ahead of the scan a label changes only by a cluster number being handed out. */
  ghost predicate AheadOk(labels: seq<Label>, lab: seq<Label>, i: nat) {
    forall k :: i <= k < |lab| && k < |labels| && lab[k] != labels[k] ==> lab[k].Cluster?
  }

  /** Every direct neighbour of the first `n` cores is in some cluster. */
  ghost predicate CoveredUpTo(nbr: seq<seq<nat>>, lab: seq<Label>, cores: seq<nat>, n: nat)
    requires |lab| == |nbr| && n <= |cores| && NeighboursOk(nbr)
    requires forall c :: 0 <= c < |cores| ==> cores[c] < |nbr|
  {
    forall c, j :: 0 <= c < n && j in nbr[cores[c]] ==> lab[j].Cluster?
  }

  /** What `dbscan` leaves behind once every child is handled. */
  ghost predicate Clustered(nbr: seq<seq<nat>>, minPts: int, labels: seq<Label>, lab: seq<Label>, cores: seq<nat>)
    requires |labels| == |nbr| && NeighboursOk(nbr)
  {
    && |lab| == |nbr|
    && (forall k :: 0 <= k < |lab| ==> lab[k] != Unlabelled)
    && Kept(labels, lab)
    && NoiseOk(nbr, minPts, labels, lab)
    && CoresOk(nbr, minPts, labels, lab, cores)
    && CoresComplete(nbr, minPts, labels, cores, |nbr|)
    && GrownOk(nbr, labels, lab, cores)
    && FirstReach(nbr, labels, lab, cores)
    && CoveredUpTo(nbr, lab, cores, |cores|)
  }

  /**
   * `dbscan(segment, eps, minPts, img)` as written: each unlabelled child with fewer than
   * `minPts` neighbours becomes `Noise`; one with more opens the next cluster and hands its
   * number to each direct neighbour that is unlabelled or `Noise`. The neighbourhoods of those
   * neighbours are computed and then dropped (the `concat` result is discarded), so clusters do
   * not grow further. The returned array holds the `forEach` result, `undefined`.
   */
  method Dbscan(img: Image, children: Option<seq<Point>>, labels: seq<Label>, eps: int, minPts: int)
    returns (lab: seq<Label>, cluster: seq<Option<seq<nat>>>, ghost cores: seq<nat>)
    requires children.Some? ==> |labels| == |children.value|
    ensures cluster == [None]
    ensures children.None? ==> lab == labels
    ensures children.Some? ==> Clustered(Ranges(img, children.value, eps), minPts, labels, lab, cores)
  {
    cluster := [None];
    lab, cores := labels, [];
    if children.None? {
      return;
    }
    var cs := children.value;
    ghost var nbr := Ranges(img, cs, eps);
    var c := 0;
    for i := 0 to |cs|
      invariant c == |cores|
      invariant Scan(nbr, minPts, labels, lab, cores, i)
    {
      if lab[i] != Unlabelled {
        ScanSkip(nbr, minPts, labels, lab, cores, i);
        continue;
      }
      var neighbors := PointsInRange(img, children, cs[i], eps);
      assert neighbors == nbr[i];
      if |neighbors| < minPts {
        ScanNoise(nbr, minPts, labels, lab, cores, i);
        lab := lab[i := Noise];
        continue;
      }
      c := c + 1;
      lab, cores := OpenCluster(lab, neighbors, i, c, nbr, minPts, labels, cores);
    }
    ScanDone(nbr, minPts, labels, lab, cores);
  }

  /**
   * Child `i`, unlabelled and dense, opens cluster `c`: it takes number `c` and hands it to
   * its neighbours.
   */
  method OpenCluster(lab: seq<Label>, neighbors: seq<nat>, i: nat, c: nat, ghost nbr: seq<seq<nat>>,
                     ghost minPts: int, ghost labels: seq<Label>, ghost cores: seq<nat>)
    returns (lab': seq<Label>, ghost cores': seq<nat>)
    requires |labels| == |nbr| && NeighboursOk(nbr) && i < |nbr| && neighbors == nbr[i]
    requires Scan(nbr, minPts, labels, lab, cores, i) && lab[i] == Unlabelled && |nbr[i]| >= minPts
    requires c == |cores| + 1
    ensures cores' == cores + [i] && |lab'| == |lab| && lab'[i] == Cluster(c)
    ensures Scan(nbr, minPts, labels, lab', cores', i + 1)
  {
    ScanOpen(nbr, minPts, labels, lab, cores, i);
    var started := lab[i := Cluster(c)];
    cores' := cores + [i];
    lab' := HandOut(started, neighbors, i, c, nbr, minPts, labels, cores');
    ScanClose(nbr, minPts, labels, started, lab', cores', i);
  }

  /**
   * The result `dbscan` promises is unique: two labellings, each with its list of cores, that
   * both satisfy `Clustered` for the same neighbourhoods and input labels are equal. So the
   * contract pins which cluster every child ends in.
   */
  lemma ClusteredUnique(nbr: seq<seq<nat>>, minPts: int, labels: seq<Label>,
                        lab1: seq<Label>, cores1: seq<nat>, lab2: seq<Label>, cores2: seq<nat>)
    requires |labels| == |nbr| && NeighboursOk(nbr)
    requires Clustered(nbr, minPts, labels, lab1, cores1) && Clustered(nbr, minPts, labels, lab2, cores2)
    ensures cores1 == cores2 && lab1 == lab2
  {
    assert CoresDecided(nbr, minPts, labels, lab1, cores1);
    assert CoresDecided(nbr, minPts, labels, lab2, cores2);
    SameCores(nbr, minPts, labels, lab1, cores1, lab2, cores2, |nbr|);
    IncreasingUnique(cores1, cores2);
    SameLabels(nbr, minPts, labels, lab1, lab2, cores1);
  }

  /** With the same cores, the two results give every child the same label. */
  lemma SameLabels(nbr: seq<seq<nat>>, minPts: int, labels: seq<Label>,
                   lab1: seq<Label>, lab2: seq<Label>, cores: seq<nat>)
    requires |labels| == |nbr| && NeighboursOk(nbr)
    requires Clustered(nbr, minPts, labels, lab1, cores) && Clustered(nbr, minPts, labels, lab2, cores)
    ensures lab1 == lab2
  {
    forall k | 0 <= k < |nbr|
      ensures lab1[k] == lab2[k]
    {
      if labels[k].Cluster? {
      } else if lab1[k].Cluster? {
        SameCluster(nbr, minPts, labels, lab1, lab2, cores, k);
      } else if lab2[k].Cluster? {
        SameCluster(nbr, minPts, labels, lab2, lab1, cores, k);
      }
    }
  }

  /** The part of `Clustered` that decides which children are cores. */
  ghost predicate CoresDecided(nbr: seq<seq<nat>>, minPts: int, labels: seq<Label>, lab: seq<Label>, cores: seq<nat>)
    requires |labels| == |nbr|
  {
    && |lab| == |nbr|
    && CoresOk(nbr, minPts, labels, lab, cores)
    && FirstReach(nbr, labels, lab, cores)
    && CoresComplete(nbr, minPts, labels, cores, |nbr|)
  }

  /** The two results agree on which of the first `n` children are cores. */
  lemma {:induction false} SameCores(nbr: seq<seq<nat>>, minPts: int, labels: seq<Label>,
                                     lab1: seq<Label>, cores1: seq<nat>, lab2: seq<Label>, cores2: seq<nat>, n: nat)
    requires |labels| == |nbr| && n <= |nbr|
    requires CoresDecided(nbr, minPts, labels, lab1, cores1) && CoresDecided(nbr, minPts, labels, lab2, cores2)
    ensures forall j :: 0 <= j < n ==> (j in cores1 <==> j in cores2)
  {
    if n > 0 {
      SameCores(nbr, minPts, labels, lab1, cores1, lab2, cores2, n - 1);
      if n - 1 in cores1 {
        CoreShared(nbr, minPts, labels, lab1, cores1, lab2, cores2, n - 1);
      }
      if n - 1 in cores2 {
        CoreShared(nbr, minPts, labels, lab2, cores2, lab1, cores1, n - 1);
      }
    }
  }

  /**
   * When the two results agree on the cores before `k`, a core `k` of the first is a core of
   * the second: no earlier core reached it, so the second had to open a cluster there too.
   */
  lemma CoreShared(nbr: seq<seq<nat>>, minPts: int, labels: seq<Label>,
                   lab1: seq<Label>, cores1: seq<nat>, lab2: seq<Label>, cores2: seq<nat>, k: nat)
    requires |labels| == |nbr| && k < |nbr|
    requires CoresDecided(nbr, minPts, labels, lab1, cores1) && CoresDecided(nbr, minPts, labels, lab2, cores2)
    requires forall j :: 0 <= j < k ==> (j in cores1 <==> j in cores2)
    requires k in cores1
    ensures k in cores2
  {
    var c :| 0 <= c < |cores1| && cores1[c] == k;
    assert lab1[k] == Cluster(c + 1) && labels[k] == Unlabelled;
    assert Unreached(nbr, cores1, c, k);
    forall d | 0 <= d < |cores2| && cores2[d] < k && cores2[d] < |nbr|
      ensures k !in nbr[cores2[d]]
    {
      var x := cores2[d];
      assert x in cores2;
      var e :| 0 <= e < |cores1| && cores1[e] == x;
      assert e < c;
      assert cores1[e] < |nbr|;
    }
  }

  /** Increasing sequences with the same elements are equal. */
  lemma {:induction false} IncreasingUnique(a: seq<nat>, b: seq<nat>)
    requires forall c, d :: 0 <= c < d < |a| ==> a[c] < a[d]
    requires forall c, d :: 0 <= c < d < |b| ==> b[c] < b[d]
    requires forall x :: x in a <==> x in b
    ensures a == b
    decreases |a|
  {
    if a != [] {
      assert a[0] in b;
    }
    if b != [] {
      assert b[0] in a;
    }
    if a != [] && b != [] {
      assert a[0] == b[0] by {
        assert a[0] in b && b[0] in a;
        var i :| 0 <= i < |b| && b[i] == a[0];
        var j :| 0 <= j < |a| && a[j] == b[0];
        assert b[0] <= b[i] && a[0] <= a[j];
      }
      Tail(a);
      Tail(b);
      IncreasingUnique(a[1..], b[1..]);
      assert a == [a[0]] + a[1..] && b == [b[0]] + b[1..];
    }
  }

  /** The tail of an increasing sequence holds its elements other than the first. */
  lemma Tail(a: seq<nat>)
    requires a != []
    requires forall c, d :: 0 <= c < d < |a| ==> a[c] < a[d]
    ensures forall c, d :: 0 <= c < d < |a[1..]| ==> a[1..][c] < a[1..][d]
    ensures forall x :: x in a[1..] <==> x in a && x != a[0]
  {
    forall x | x in a && x != a[0]
      ensures x in a[1..]
    {
      var m :| 0 <= m < |a| && a[m] == x;
      assert a[1..][m - 1] == x;
    }
  }

  /**
   * A child that the first result moved into a cluster is in the same cluster in the second:
   * in both it belongs to the first core that reaches it.
   */
  lemma SameCluster(nbr: seq<seq<nat>>, minPts: int, labels: seq<Label>,
                    lab1: seq<Label>, lab2: seq<Label>, cores: seq<nat>, k: nat)
    requires |labels| == |nbr| && NeighboursOk(nbr) && k < |nbr| && |lab1| == |nbr| && |lab2| == |nbr|
    requires CoresOk(nbr, minPts, labels, lab1, cores) && CoresOk(nbr, minPts, labels, lab2, cores)
    requires GrownOk(nbr, labels, lab1, cores) && GrownOk(nbr, labels, lab2, cores)
    requires FirstReach(nbr, labels, lab1, cores) && FirstReach(nbr, labels, lab2, cores)
    requires CoveredUpTo(nbr, lab2, cores, |cores|)
    requires !labels[k].Cluster? && lab1[k].Cluster?
    ensures lab2[k] == lab1[k]
  {
    var id1 := lab1[k].id;
    Reached(nbr, labels, lab1, cores, k);
    if k == cores[id1 - 1] {
      assert lab2[k] == Cluster(id1);
    } else {
      assert lab2[k].Cluster?;
      Reached(nbr, labels, lab2, cores, k);
    }
  }

  /**
   * A child a result moved into cluster `id` is core `id` or one of its neighbours, and no
   * earlier core reaches it.
   */
  lemma Reached(nbr: seq<seq<nat>>, labels: seq<Label>, lab: seq<Label>, cores: seq<nat>, k: nat)
    requires |labels| == |nbr| && |lab| == |nbr| && k < |nbr|
    requires forall c :: 0 <= c < |cores| ==> cores[c] < |nbr|
    requires GrownOk(nbr, labels, lab, cores) && FirstReach(nbr, labels, lab, cores)
    requires !labels[k].Cluster? && lab[k].Cluster?
    ensures var id := lab[k].id;
      && 1 <= id <= |cores|
      && (k == cores[id - 1] || k in nbr[cores[id - 1]])
      && Unreached(nbr, cores, id - 1, k)
  {
    assert lab[k] != labels[k];
  }

  /** The state of `dbscan`'s scan before child `i`. */
  ghost predicate Scan(nbr: seq<seq<nat>>, minPts: int, labels: seq<Label>, lab: seq<Label>, cores: seq<nat>, i: nat)
    requires |labels| == |nbr| && NeighboursOk(nbr)
  {
    && Progress(nbr, minPts, labels, lab, cores, i)
    && CoveredUpTo(nbr, lab, cores, |cores|)
    && FirstReach(nbr, labels, lab, cores) && AheadOk(labels, lab, i)
    && CoresComplete(nbr, minPts, labels, cores, i)
  }

  /** The state right after child `i` opened the last cluster of `cores`. */
  ghost predicate Opened(nbr: seq<seq<nat>>, minPts: int, labels: seq<Label>, lab: seq<Label>, cores: seq<nat>, i: nat)
    requires |labels| == |nbr| && NeighboursOk(nbr)
  {
    && Growing(nbr, minPts, labels, lab, cores, i, 0)
    && FirstReach(nbr, labels, lab, cores) && AheadOk(labels, lab, i + 1)
    && CoresComplete(nbr, minPts, labels, cores, i + 1)
  }

  /** A child that is already labelled is passed over. */
  lemma ScanSkip(nbr: seq<seq<nat>>, minPts: int, labels: seq<Label>, lab: seq<Label>, cores: seq<nat>, i: nat)
    requires |labels| == |nbr| && NeighboursOk(nbr) && i < |nbr|
    requires Scan(nbr, minPts, labels, lab, cores, i) && lab[i] != Unlabelled
    ensures Scan(nbr, minPts, labels, lab, cores, i + 1)
  {
    SkipFirst(nbr, minPts, labels, lab, cores, i);
  }

  /** An unlabelled child with fewer than `minPts` neighbours becomes `Noise`. */
  lemma ScanNoise(nbr: seq<seq<nat>>, minPts: int, labels: seq<Label>, lab: seq<Label>, cores: seq<nat>, i: nat)
    requires |labels| == |nbr| && NeighboursOk(nbr) && i < |nbr|
    requires Scan(nbr, minPts, labels, lab, cores, i) && lab[i] == Unlabelled && |nbr[i]| < minPts
    ensures Scan(nbr, minPts, labels, lab[i := Noise], cores, i + 1)
  {
    NoiseFirst(nbr, minPts, labels, lab, cores, i);
    NoiseStep(nbr, minPts, labels, lab, cores, i);
  }

  /** An unlabelled child with at least `minPts` neighbours opens the next cluster. */
  lemma ScanOpen(nbr: seq<seq<nat>>, minPts: int, labels: seq<Label>, lab: seq<Label>, cores: seq<nat>, i: nat)
    requires |labels| == |nbr| && NeighboursOk(nbr) && i < |nbr|
    requires Scan(nbr, minPts, labels, lab, cores, i) && lab[i] == Unlabelled && |nbr[i]| >= minPts
    ensures Opened(nbr, minPts, labels, lab[i := Cluster(|cores| + 1)], cores + [i], i)
  {
    OpenFirst(nbr, minPts, labels, lab, cores, i);
    OpenStep(nbr, minPts, labels, lab, cores, i);
  }

  /** Once core `i` has handed out its number, the scan moves on to the next child. */
  lemma ScanClose(nbr: seq<seq<nat>>, minPts: int, labels: seq<Label>, lab: seq<Label>, lab': seq<Label>, cores: seq<nat>, i: nat)
    requires |labels| == |nbr| && NeighboursOk(nbr) && i < |nbr|
    requires Opened(nbr, minPts, labels, lab, cores, i)
    requires |lab'| == |lab|
    requires forall q :: 0 <= q < |lab| ==>
      lab'[q] == (if q in nbr[i] && !lab[q].Cluster? then Cluster(|cores|) else lab[q])
    requires Growing(nbr, minPts, labels, lab', cores, i, |nbr[i]|)
    ensures Scan(nbr, minPts, labels, lab', cores, i + 1)
  {
    HandOutFirst(nbr, minPts, labels, lab, lab', cores, i);
    GrowDone(nbr, minPts, labels, lab', cores, i);
  }

  /** After the last child the scan state is the result `dbscan` promises. */
  lemma ScanDone(nbr: seq<seq<nat>>, minPts: int, labels: seq<Label>, lab: seq<Label>, cores: seq<nat>)
    requires |labels| == |nbr| && NeighboursOk(nbr)
    requires Scan(nbr, minPts, labels, lab, cores, |nbr|)
    ensures Clustered(nbr, minPts, labels, lab, cores)
  {
  }

  /**
   * The inner `seedset.forEach` of `dbscan`: core `i` hands cluster number `c` to each of its
   * neighbours that is `Noise` or unlabelled; a neighbour already in a cluster, the core
   * included, keeps its number (`if (pointQ.label) return`), and no other child changes.
   */
  method HandOut(lab: seq<Label>, neighbors: seq<nat>, i: nat, c: nat, ghost nbr: seq<seq<nat>>,
                 ghost minPts: int, ghost labels: seq<Label>, ghost cores: seq<nat>) returns (lab': seq<Label>)
    requires |labels| == |nbr| && NeighboursOk(nbr) && i < |nbr| && neighbors == nbr[i] && c == |cores|
    requires Growing(nbr, minPts, labels, lab, cores, i, 0)
    ensures |lab'| == |lab|
    ensures forall q :: 0 <= q < |lab| ==>
      lab'[q] == (if q in neighbors && !lab[q].Cluster? then Cluster(c) else lab[q])
    ensures Growing(nbr, minPts, labels, lab', cores, i, |nbr[i]|)
  {
    lab' := lab;
    for k := 0 to |neighbors|
      invariant |lab'| == |lab|
      invariant forall q :: 0 <= q < |lab| ==> lab'[q] == Handed(lab, neighbors[..k], c, q)
      invariant Growing(nbr, minPts, labels, lab', cores, i, k)
    {
      var q := neighbors[k];
      HandedNext(lab, lab', neighbors, k, c);
      if q == i {
        GrowSkip(nbr, minPts, labels, lab', cores, i, k);
        continue;
      }
      if lab'[q] == Noise {
        GrowStep(nbr, minPts, labels, lab', cores, i, k);
        lab' := lab'[q := Cluster(c)];
      } else if lab'[q] != Unlabelled {
        GrowSkip(nbr, minPts, labels, lab', cores, i, k);
      } else {
        GrowStep(nbr, minPts, labels, lab', cores, i, k);
        lab' := lab'[q := Cluster(c)];
      }
    }
    assert neighbors[..|neighbors|] == neighbors;
  }

  /** Child `q`'s label once cluster `c` was handed to the children in `ns`. */
  function Handed(lab: seq<Label>, ns: seq<nat>, c: nat, q: nat): Label
    requires q < |lab|
  {
    if q in ns && !lab[q].Cluster? then Cluster(c) else lab[q]
  }

  /**
   * Handing cluster `c` to neighbour `k` as well: a child already in a cluster is left alone,
   * any other takes number `c`.
   */
  lemma HandedNext(lab: seq<Label>, cur: seq<Label>, ns: seq<nat>, k: nat, c: nat)
    requires k < |ns| && ns[k] < |lab| && |cur| == |lab|
    requires forall q :: 0 <= q < |lab| ==> cur[q] == Handed(lab, ns[..k], c, q)
    ensures cur[ns[k]].Cluster? ==> forall q :: 0 <= q < |lab| ==> cur[q] == Handed(lab, ns[..k + 1], c, q)
    ensures !cur[ns[k]].Cluster? ==> Handed(lab, ns[..k + 1], c, ns[k]) == Cluster(c)
    ensures forall q :: 0 <= q < |lab| && q != ns[k] ==> cur[q] == Handed(lab, ns[..k + 1], c, q)
  {
    PrefixNext(ns, k);
  }

  /** While cluster `|cores|` hands out its number: core `i`'s first `k` neighbours are done. */
  ghost predicate Growing(nbr: seq<seq<nat>>, minPts: int, labels: seq<Label>, lab: seq<Label>, cores: seq<nat>, i: nat, k: nat)
    requires |labels| == |nbr| && NeighboursOk(nbr)
  {
    && i < |nbr| && 0 < |cores| && cores[|cores| - 1] == i
    && Progress(nbr, minPts, labels, lab, cores, i + 1)
    && CoveredUpTo(nbr, lab, cores, |cores| - 1)
    && k <= |nbr[i]|
    && forall l :: 0 <= l < k ==> lab[nbr[i][l]].Cluster?
  }

  /** The first `k + 1` elements are the first `k` and one more. */
  lemma PrefixNext(s: seq<nat>, k: nat)
    requires k < |s|
    ensures forall x :: x in s[..k + 1] <==> x in s[..k] || x == s[k]
  {
    assert s[..k + 1] == s[..k] + [s[k]];
  }

  /**
   * Passing over a child that is already labelled: it was labelled on input, or an earlier
   * core reached it, so it could not open a cluster.
   */
  lemma SkipFirst(nbr: seq<seq<nat>>, minPts: int, labels: seq<Label>, lab: seq<Label>, cores: seq<nat>, i: nat)
    requires |labels| == |nbr| && i < |nbr| && Progress(nbr, minPts, labels, lab, cores, i)
    requires AheadOk(labels, lab, i) && CoresComplete(nbr, minPts, labels, cores, i)
    requires lab[i] != Unlabelled
    ensures AheadOk(labels, lab, i + 1) && CoresComplete(nbr, minPts, labels, cores, i + 1)
  {
    if labels[i] == Unlabelled {
      var d := lab[i].id - 1;
      assert cores[d] < i && i in nbr[cores[d]];
      assert !EarlierUnreached(nbr, cores, i);
    }
  }

  /** Marking child `i` as `Noise` keeps the first-reach facts: `i` is sparse and not in a cluster. */
  lemma NoiseFirst(nbr: seq<seq<nat>>, minPts: int, labels: seq<Label>, lab: seq<Label>, cores: seq<nat>, i: nat)
    requires |labels| == |nbr| && |lab| == |nbr| && i < |nbr| && |nbr[i]| < minPts
    requires FirstReach(nbr, labels, lab, cores) && AheadOk(labels, lab, i)
    requires CoresComplete(nbr, minPts, labels, cores, i)
    ensures FirstReach(nbr, labels, lab[i := Noise], cores) && AheadOk(labels, lab[i := Noise], i + 1)
    ensures CoresComplete(nbr, minPts, labels, cores, i + 1)
  {
  }

  /** Opening a cluster at `i`: no earlier core reached `i`, and `i` joins the cores. */
  lemma OpenFirst(nbr: seq<seq<nat>>, minPts: int, labels: seq<Label>, lab: seq<Label>, cores: seq<nat>, i: nat)
    requires |labels| == |nbr| && NeighboursOk(nbr) && i < |nbr|
    requires Progress(nbr, minPts, labels, lab, cores, i) && CoveredUpTo(nbr, lab, cores, |cores|)
    requires FirstReach(nbr, labels, lab, cores) && AheadOk(labels, lab, i)
    requires CoresComplete(nbr, minPts, labels, cores, i)
    requires lab[i] == Unlabelled
    ensures var lab', cores' := lab[i := Cluster(|cores| + 1)], cores + [i];
      FirstReach(nbr, labels, lab', cores') && AheadOk(labels, lab', i + 1)
      && CoresComplete(nbr, minPts, labels, cores', i + 1)
  {
    var lab', cores' := lab[i := Cluster(|cores| + 1)], cores + [i];
    OpenComplete(nbr, minPts, labels, cores, i);
    forall k | 0 <= k < |lab'| && lab'[k] != labels[k] && lab'[k].Cluster?
      ensures Unreached(nbr, cores', lab'[k].id - 1, k)
    {
      forall d | 0 <= d < lab'[k].id - 1 && d < |cores'| && cores'[d] < |nbr|
        ensures k != cores'[d] && k !in nbr[cores'[d]]
      {
        assert d < |cores| && cores'[d] == cores[d];
        if k == i {
          assert lab[cores[d]] == Cluster(d + 1);
        } else {
          assert Unreached(nbr, cores, lab[k].id - 1, k);
        }
      }
    }
  }

  /** With the new core, every child up to and including `i` that could open a cluster did. */
  lemma OpenComplete(nbr: seq<seq<nat>>, minPts: int, labels: seq<Label>, cores: seq<nat>, i: nat)
    requires |labels| == |nbr| && i < |nbr| && forall c :: 0 <= c < |cores| ==> cores[c] < i
    requires CoresComplete(nbr, minPts, labels, cores, i)
    ensures CoresComplete(nbr, minPts, labels, cores + [i], i + 1)
  {
    var cores' := cores + [i];
    forall k | 0 <= k < i + 1 && k < |nbr| && labels[k] == Unlabelled && |nbr[k]| >= minPts &&
        EarlierUnreached(nbr, cores', k)
      ensures k in cores'
    {
      if k < i {
        forall d | 0 <= d < |cores| && cores[d] < k && cores[d] < |nbr|
          ensures k !in nbr[cores[d]]
        {
          assert cores'[d] == cores[d];
        }
        assert k in cores;
      } else {
        assert cores'[|cores|] == k;
      }
    }
  }

  /**
   * After core `i` (the last of `cores`) handed out its number, every child it labelled was
   * reached by no earlier core, since every neighbour of an earlier core was already in a cluster.
   */
  lemma HandOutFirst(nbr: seq<seq<nat>>, minPts: int, labels: seq<Label>, lab: seq<Label>, lab': seq<Label>, cores: seq<nat>, i: nat)
    requires |labels| == |nbr| && NeighboursOk(nbr) && i < |nbr|
    requires Growing(nbr, minPts, labels, lab, cores, i, 0)
    requires FirstReach(nbr, labels, lab, cores) && AheadOk(labels, lab, i + 1)
    requires |lab'| == |lab|
    requires forall q :: 0 <= q < |lab| ==>
      lab'[q] == (if q in nbr[i] && !lab[q].Cluster? then Cluster(|cores|) else lab[q])
    ensures FirstReach(nbr, labels, lab', cores) && AheadOk(labels, lab', i + 1)
  {
    forall k | 0 <= k < |lab'| && lab'[k] != labels[k] && lab'[k].Cluster?
      ensures Unreached(nbr, cores, lab'[k].id - 1, k)
    {
      if lab'[k] != lab[k] {
        forall d | 0 <= d < |cores| - 1 && cores[d] < |nbr|
          ensures k != cores[d] && k !in nbr[cores[d]]
        {
          assert lab[cores[d]] == Cluster(d + 1);
        }
      }
    }
  }

  /** Marking an unlabelled child with a sparse neighbourhood as `Noise`. */
  lemma NoiseStep(nbr: seq<seq<nat>>, minPts: int, labels: seq<Label>, lab: seq<Label>, cores: seq<nat>, i: nat)
    requires |labels| == |nbr| && NeighboursOk(nbr) && i < |nbr|
    requires Progress(nbr, minPts, labels, lab, cores, i) && CoveredUpTo(nbr, lab, cores, |cores|)
    requires lab[i] == Unlabelled && |nbr[i]| < minPts
    ensures Progress(nbr, minPts, labels, lab[i := Noise], cores, i + 1)
    ensures CoveredUpTo(nbr, lab[i := Noise], cores, |cores|)
  {
    var lab' := lab[i := Noise];
    forall c, j | 0 <= c < |cores| && j in nbr[cores[c]]
      ensures lab'[j].Cluster?
    {
      assert lab[j].Cluster?;
    }
  }

  /** Opening cluster `|cores| + 1` at an unlabelled child with a dense neighbourhood. */
  lemma OpenStep(nbr: seq<seq<nat>>, minPts: int, labels: seq<Label>, lab: seq<Label>, cores: seq<nat>, i: nat)
    requires |labels| == |nbr| && NeighboursOk(nbr) && i < |nbr|
    requires Progress(nbr, minPts, labels, lab, cores, i) && CoveredUpTo(nbr, lab, cores, |cores|)
    requires lab[i] == Unlabelled && |nbr[i]| >= minPts
    ensures Growing(nbr, minPts, labels, lab[i := Cluster(|cores| + 1)], cores + [i], i, 0)
  {
    var lab' := lab[i := Cluster(|cores| + 1)];
    var cores' := cores + [i];
    OpenCores(nbr, minPts, labels, lab, cores, i);
    OpenGrown(nbr, labels, lab, cores, i);
    forall c, j | 0 <= c < |cores'| - 1 && j in nbr[cores'[c]]
      ensures lab'[j].Cluster?
    {
      assert cores'[c] == cores[c];
      assert lab[j].Cluster?;
    }
  }

  /** The child opening a cluster becomes the last core. */
  lemma OpenCores(nbr: seq<seq<nat>>, minPts: int, labels: seq<Label>, lab: seq<Label>, cores: seq<nat>, i: nat)
    requires |labels| == |nbr| && i < |nbr|
    requires Progress(nbr, minPts, labels, lab, cores, i)
    requires lab[i] == Unlabelled && |nbr[i]| >= minPts
    ensures CoresOk(nbr, minPts, labels, lab[i := Cluster(|cores| + 1)], cores + [i])
  {
    var lab' := lab[i := Cluster(|cores| + 1)];
    var cores' := cores + [i];
    forall c | 0 <= c < |cores'|
      ensures && cores'[c] < |nbr| && labels[cores'[c]] == Unlabelled
              && |nbr[cores'[c]]| >= minPts && lab'[cores'[c]] == Cluster(c + 1)
    {
      if c < |cores| {
        assert cores'[c] == cores[c] < i;
      }
    }
  }

  /** Opening a cluster labels only its core, which is the core of its own number. */
  lemma OpenGrown(nbr: seq<seq<nat>>, labels: seq<Label>, lab: seq<Label>, cores: seq<nat>, i: nat)
    requires |labels| == |nbr| && |lab| == |nbr| && i < |nbr|
    requires forall c :: 0 <= c < |cores| ==> cores[c] < |nbr|
    requires GrownOk(nbr, labels, lab, cores)
    ensures GrownOk(nbr, labels, lab[i := Cluster(|cores| + 1)], cores + [i])
  {
    var lab' := lab[i := Cluster(|cores| + 1)];
    var cores' := cores + [i];
    forall k | 0 <= k < |nbr| && lab'[k] != labels[k] && lab'[k].Cluster?
      ensures 1 <= lab'[k].id <= |cores'|
      ensures k == cores'[lab'[k].id - 1] || k in nbr[cores'[lab'[k].id - 1]]
    {
      if k == i {
        assert cores'[|cores|] == i;
      } else {
        assert lab'[k] == lab[k];
        var id := lab[k].id;
        assert k == cores[id - 1] || k in nbr[cores[id - 1]];
        assert cores'[id - 1] == cores[id - 1];
      }
    }
  }

  /**
   * Giving child `q` cluster number `id` keeps the invariant when `q` is not yet in a cluster
   * and is core `id` or one of its neighbours.
   */
  lemma Relabel(nbr: seq<seq<nat>>, minPts: int, labels: seq<Label>, lab: seq<Label>, cores: seq<nat>, i: nat, q: nat, id: nat)
    requires |labels| == |nbr| && Progress(nbr, minPts, labels, lab, cores, i)
    requires q < |nbr| && !lab[q].Cluster?
    requires 1 <= id <= |cores| && (q == cores[id - 1] || q in nbr[cores[id - 1]])
    ensures Progress(nbr, minPts, labels, lab[q := Cluster(id)], cores, i)
  {
    var lab' := lab[q := Cluster(id)];
    assert Kept(labels, lab') by {
      assert !labels[q].Cluster?;
    }
    assert NoiseOk(nbr, minPts, labels, lab') by {
      assert lab'[q] != Noise;
    }
    RelabelCores(nbr, minPts, labels, lab, cores, q, id);
    RelabelGrown(nbr, labels, lab, cores, q, id);
  }

  /** A child outside every cluster is no core, so the cores keep their numbers. */
  lemma RelabelCores(nbr: seq<seq<nat>>, minPts: int, labels: seq<Label>, lab: seq<Label>, cores: seq<nat>, q: nat, id: nat)
    requires |labels| == |nbr| && |lab| == |nbr| && q < |nbr| && !lab[q].Cluster?
    requires CoresOk(nbr, minPts, labels, lab, cores)
    ensures CoresOk(nbr, minPts, labels, lab[q := Cluster(id)], cores)
  {
    forall c | 0 <= c < |cores|
      ensures lab[q := Cluster(id)][cores[c]] == Cluster(c + 1)
    {
      assert cores[c] != q;
    }
  }

  /** Cluster `id` reaches child `q`, so `q` may take its number. */
  lemma RelabelGrown(nbr: seq<seq<nat>>, labels: seq<Label>, lab: seq<Label>, cores: seq<nat>, q: nat, id: nat)
    requires |labels| == |nbr| && |lab| == |nbr| && q < |nbr|
    requires forall c :: 0 <= c < |cores| ==> cores[c] < |nbr|
    requires GrownOk(nbr, labels, lab, cores)
    requires 1 <= id <= |cores| && (q == cores[id - 1] || q in nbr[cores[id - 1]])
    ensures GrownOk(nbr, labels, lab[q := Cluster(id)], cores)
  {
  }

  /** Handing out cluster numbers keeps every neighbourhood covered that was covered. */
  lemma CoveredRelabel(nbr: seq<seq<nat>>, lab: seq<Label>, cores: seq<nat>, n: nat, q: nat, id: nat)
    requires |lab| == |nbr| && n <= |cores| && NeighboursOk(nbr) && q < |nbr|
    requires forall c :: 0 <= c < |cores| ==> cores[c] < |nbr|
    requires CoveredUpTo(nbr, lab, cores, n)
    ensures CoveredUpTo(nbr, lab[q := Cluster(id)], cores, n)
  {
    forall c, j | 0 <= c < n && j in nbr[cores[c]]
      ensures lab[q := Cluster(id)][j].Cluster?
    {
      assert lab[j].Cluster?;
    }
  }

  /** A neighbour that is the core itself or already in a cluster keeps its label. */
  lemma GrowSkip(nbr: seq<seq<nat>>, minPts: int, labels: seq<Label>, lab: seq<Label>, cores: seq<nat>, i: nat, k: nat)
    requires |labels| == |nbr| && NeighboursOk(nbr)
    requires Growing(nbr, minPts, labels, lab, cores, i, k) && k < |nbr[i]|
    requires nbr[i][k] == i || lab[nbr[i][k]].Cluster?
    ensures Growing(nbr, minPts, labels, lab, cores, i, k + 1)
  {
    assert lab[i] == Cluster(|cores|);
  }

  /** An unlabelled or `Noise` neighbour of core `i` joins its cluster. */
  lemma GrowStep(nbr: seq<seq<nat>>, minPts: int, labels: seq<Label>, lab: seq<Label>, cores: seq<nat>, i: nat, k: nat)
    requires |labels| == |nbr| && NeighboursOk(nbr)
    requires Growing(nbr, minPts, labels, lab, cores, i, k) && k < |nbr[i]|
    requires nbr[i][k] != i && (lab[nbr[i][k]] == Unlabelled || lab[nbr[i][k]] == Noise)
    ensures Growing(nbr, minPts, labels, lab[nbr[i][k] := Cluster(|cores|)], cores, i, k + 1)
  {
    var q := nbr[i][k];
    assert q in nbr[i];
    var lab' := lab[q := Cluster(|cores|)];
    Relabel(nbr, minPts, labels, lab, cores, i + 1, q, |cores|);
    CoveredRelabel(nbr, lab, cores, |cores| - 1, q, |cores|);
    forall l | 0 <= l < k + 1
      ensures lab'[nbr[i][l]].Cluster?
    {
      if l < k {
        assert lab[nbr[i][l]].Cluster?;
      }
    }
  }

  /** Once every neighbour of core `i` is handled, the new cluster's neighbourhood is covered. */
  lemma GrowDone(nbr: seq<seq<nat>>, minPts: int, labels: seq<Label>, lab: seq<Label>, cores: seq<nat>, i: nat)
    requires |labels| == |nbr| && NeighboursOk(nbr) && i < |nbr|
    requires Growing(nbr, minPts, labels, lab, cores, i, |nbr[i]|)
    ensures Progress(nbr, minPts, labels, lab, cores, i + 1)
    ensures CoveredUpTo(nbr, lab, cores, |cores|)
  {
    forall c, j | 0 <= c < |cores| && j in nbr[cores[c]]
      ensures lab[j].Cluster?
    {
      if c == |cores| - 1 {
        var l :| 0 <= l < |nbr[i]| && nbr[i][l] == j;
      }
    }
  }
}
