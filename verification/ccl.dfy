/**
 * The first (and only) pass of `hk` in src/utils/ccl.ts: one row-major scan that puts every
 * non-black pixel into a disjoint-set forest keyed by `"x-y"` and unions it with its north and
 * west neighbours when their hex colours are identical. The result is the forest map itself.
 */
module Ccl {
  import opened Hex
  import opened Raster
  import opened UnionFind
  import opened Regions
  import opened Wrappers

  datatype Connectivity = Four | Eight

  /** `q` comes before `p` in row-major order (on the unbounded grid). */
  predicate Before(q: Point, p: Point) {
    q.y < p.y || (q.y == p.y && q.x < p.x)
  }

  /** `q` is an edge neighbour of `p` (4) or an edge or corner neighbour (8). */
  predicate Touches(p: Point, q: Point, connectivity: Connectivity) {
    match connectivity
    case Four => Adjacent(p, q)
    case Eight => p != q && -1 <= q.x - p.x <= 1 && -1 <= q.y - p.y <= 1
  }

  /**
   * `get_neighbors(img, i, connectivity)`: the neighbours of the pixel at offset `i` that a
   * row-major scan has already passed, whether or not they lie inside the image.
   */
  function GetNeighbors(img: Image, i: nat, connectivity: Connectivity): (r: seq<Point>)
    requires 0 < img.width
    ensures var p := IToXy(i, img.width);
      forall q :: q in r <==> Before(q, p) && Touches(p, q, connectivity)
  {
    var p := IToXy(i, img.width);
    var x, y := p.x, p.y;
    match connectivity
    case Four => [Point(x, y - 1), Point(x - 1, y)]
    case Eight => [Point(x - 1, y - 1), Point(x, y - 1), Point(x + 1, y - 1), Point(x - 1, y)]
  }

  /** `indexString([x, y])`: the forest key `` `${x}-${y}` ``. */
  function IndexString(x: int, y: int): string
  {
    Decimal(x) + "-" + Decimal(y)
  }

  /** Different coordinates give different keys, negative ones included. */
  lemma IndexStringInjective(x1: int, y1: int, x2: int, y2: int)
    requires IndexString(x1, y1) == IndexString(x2, y2)
    ensures x1 == x2 && y1 == y2
  {
    var a1, a2 := Decimal(x1), Decimal(x2);
    var s := IndexString(x1, y1);
    assert s == a1 + "-" + Decimal(y1) == a2 + "-" + Decimal(y2);
    // The separator is the first `-` after position 0, so both texts split at one place.
    SeparatorPosition(x1, y1);
    SeparatorPosition(x2, y2);
    assert |a1| == |a2|;
    assert a1 == s[..|a1|] == a2;
    assert Decimal(y1) == s[|a1| + 1..] == Decimal(y2);
    DecimalInjective(x1, x2);
    DecimalInjective(y1, y2);
  }

  /** The `-` between the coordinates is the first one after position 0. */
  lemma SeparatorPosition(x: int, y: int)
    ensures var s, d := IndexString(x, y), Decimal(x);
      && s[|d|] == '-'
      && forall i :: 1 <= i < |d| ==> s[i] != '-'
  {
    var s, d := IndexString(x, y), Decimal(x);
    forall i | 1 <= i < |d|
      ensures s[i] != '-'
    {
      assert s[i] == d[i];
    }
  }

  function Key(p: Point): string {
    IndexString(p.x, p.y)
  }

  /** The forest map `hk` returns: each key's node in the arena. */
  datatype Labelling = Labelling(index: map<string, nat>, forest: Forest)

  predicate Labelled(st: Labelling, p: Point) {
    Key(p) in st.index && st.index[Key(p)] < |st.forest.parent|
  }

  /** Pixels `p` and `q` both have nodes, and the nodes share a root. */
  predicate SamePixelSet(st: Labelling, p: Point, q: Point) {
    Valid(st.forest) && Labelled(st, p) && Labelled(st, q)
    && SameSet(st.forest, st.index[Key(p)], st.index[Key(q)])
  }

  /** The node under `key` is the `makeSet` node of a member pixel visited before position `k`. */
  predicate NodeOk(img: Image, st: Labelling, key: string, k: int)
    requires key in st.index
  {
    && ValidImage(img)
    && st.index[key] < |st.forest.nodes|
    && var node := st.forest.nodes[st.index[key]];
       var p := Point(node.x, node.y);
       && key == Key(p) && node.index == key
       && Member(img, p) && Position(img, p) < k
       && node.color == HexAt(img, p)
       && node.box == Box(node.y, node.y, node.x, node.x)
       && node.children.None?
  }

  /** Exactly the member pixels visited before position `k` have nodes. */
  ghost predicate KeysOk(img: Image, st: Labelling, k: int) {
    && ValidImage(img) && Valid(st.forest)
    && (forall key {:trigger NodeOk(img, st, key, k)} :: key in st.index ==> NodeOk(img, st, key, k))
    && (forall p {:trigger Labelled(st, p)} :: Member(img, p) && Position(img, p) < k ==> Labelled(st, p))
  }

  /** Pixels in one set are linked by a visited same-colour walk. */
  ghost predicate Sound(img: Image, st: Labelling, k: int) {
    forall p, q {:trigger SamePixelSet(st, p, q)} :: SamePixelSet(st, p, q) ==> Linked(img, k, p, q)
  }

  /** Adjacent visited member pixels of one colour are in one set. */
  ghost predicate Complete(img: Image, st: Labelling, k: int) {
    forall p, q {:trigger SamePixelSet(st, p, q)} ::
      && Member(img, p) && Position(img, p) < k
      && Member(img, q) && Position(img, q) < k
      && Adjacent(p, q) && At(img, p) == At(img, q)
      ==> SamePixelSet(st, p, q)
  }

  /** The state of the scan once it has visited every position before `k`. */
  ghost predicate Scanned(img: Image, st: Labelling, k: int) {
    0 <= k <= img.width * img.height && KeysOk(img, st, k) && Sound(img, st, k) && Complete(img, st, k)
  }

  /** No set is ever split: every pair in one set of `st` is in one set of `st'`. */
  ghost predicate Grows(st: Labelling, st': Labelling) {
    forall p, q {:trigger SamePixelSet(st, p, q)} :: SamePixelSet(st, p, q) ==> SamePixelSet(st', p, q)
  }

  /** The key of an indexed node names that node's own pixel. */
  lemma KeyNamesPixel(img: Image, st: Labelling, k: int, p: Point)
    requires KeysOk(img, st, k) && Key(p) in st.index
    ensures Labelled(st, p)
    ensures var node := st.forest.nodes[st.index[Key(p)]];
      node.x == p.x && node.y == p.y && Member(img, p) && Position(img, p) < k && node.color == HexAt(img, p)
  {
    assert NodeOk(img, st, Key(p), k);
    var node := st.forest.nodes[st.index[Key(p)]];
    IndexStringInjective(node.x, node.y, p.x, p.y);
  }

  /** Pixels before `t` in row-major order come before it in the buffer. */
  lemma BeforePosition(img: Image, q: Point, t: Point)
    requires InImage(img, q) && InImage(img, t) && Before(q, t)
    ensures Position(img, q) < Position(img, t)
  {
    if q.y < t.y {
      MulMonotone(q.y + 1, t.y, img.width);
      assert (q.y + 1) * img.width == q.y * img.width + img.width;
    }
  }

  /** The only edge neighbours a row-major scan has already visited are the north and west ones. */
  lemma EarlierNeighbour(img: Image, t: Point, q: Point)
    requires InImage(img, t) && InImage(img, q) && Adjacent(t, q)
    requires Position(img, q) < Position(img, t)
    ensures Before(q, t)
  {
    PositionOfNeighbours(img, t);
  }

  /** Member pixels visited before `k + 1` other than `t` at position `k` were visited before `k`. */
  lemma EarlierThanNew(img: Image, t: Point)
    requires ValidImage(img) && InImage(img, t)
    ensures forall p :: InImage(img, p) && Position(img, p) < Position(img, t) + 1 && p != t ==>
      Position(img, p) < Position(img, t)
  {
    forall p | InImage(img, p) && Position(img, p) < Position(img, t) + 1 && p != t
      ensures Position(img, p) < Position(img, t)
    {
      if Position(img, p) == Position(img, t) {
        PositionInjective(img, p, t);
      }
    }
  }

  /** A walk among the pixels visited before `k` is one among those visited before `k + 1`. */
  lemma SoundLater(img: Image, st: Labelling, k: int)
    requires Sound(img, st, k)
    ensures Sound(img, st, k + 1)
  {
    forall p, q | SamePixelSet(st, p, q)
      ensures Linked(img, k + 1, p, q)
    {
      LinkedMono(img, k, k + 1, p, q);
    }
  }

  /** A pixel that is not a member leaves the scan state as it was, one position further on. */
  lemma SkipPixel(img: Image, st: Labelling, t: Point)
    requires ValidImage(img) && InImage(img, t) && !Member(img, t)
    requires Scanned(img, st, Position(img, t))
    ensures Scanned(img, st, Position(img, t) + 1)
  {
    var k := Position(img, t);
    OffsetInBuffer(img, t);
    assert k + 1 <= img.width * img.height;
    SkipKeys(img, st, t);
    SoundLater(img, st, k);
    SkipComplete(img, st, t);
  }

  lemma SkipKeys(img: Image, st: Labelling, t: Point)
    requires ValidImage(img) && InImage(img, t) && !Member(img, t)
    requires KeysOk(img, st, Position(img, t))
    ensures KeysOk(img, st, Position(img, t) + 1)
  {
    var k := Position(img, t);
    EarlierThanNew(img, t);
    forall key | key in st.index
      ensures NodeOk(img, st, key, k + 1)
    {
      assert NodeOk(img, st, key, k);
    }
  }

  lemma SkipComplete(img: Image, st: Labelling, t: Point)
    requires ValidImage(img) && InImage(img, t) && !Member(img, t)
    requires Complete(img, st, Position(img, t))
    ensures Complete(img, st, Position(img, t) + 1)
  {
    EarlierThanNew(img, t);
  }

  /** `makeSet` for member pixel `t`, filed under its key (`forest[index] = tree`). */
  function AddPixel(img: Image, st: Labelling, t: Point): (st': Labelling)
    requires ValidImage(img) && InImage(img, t) && Valid(st.forest)
    ensures Valid(st'.forest) && Labelled(st', t)
  {
    var m := |st.forest.parent|;
    Labelling(st.index[Key(t) := m], MakeSet(st.forest, Key(t), t.x, t.y, HexAt(img, t)))
  }

  /** A pixel the scan reaches for the first time has no node yet. */
  lemma AddFresh(img: Image, st: Labelling, t: Point)
    requires ValidImage(img) && InImage(img, t) && KeysOk(img, st, Position(img, t))
    ensures Key(t) !in st.index
  {
    if Key(t) in st.index {
      KeyNamesPixel(img, st, Position(img, t), t);
      assert false;
    }
  }

  /** The new node is `t`'s, and every older key keeps its node. */
  lemma AddKeys(img: Image, st: Labelling, t: Point)
    requires ValidImage(img) && InImage(img, t) && Member(img, t)
    requires KeysOk(img, st, Position(img, t)) && Key(t) !in st.index
    ensures KeysOk(img, AddPixel(img, st, t), Position(img, t) + 1)
  {
    var st' := AddPixel(img, st, t);
    forall key | key in st'.index
      ensures NodeOk(img, st', key, Position(img, t) + 1)
    {
      AddNodeOk(img, st, t, key);
    }
    forall p | Member(img, p) && Position(img, p) < Position(img, t) + 1
      ensures Labelled(st', p)
    {
      AddLabelled(img, st, t, p);
    }
  }

  /** After `makeSet` every key names a good node: the new one `t`'s, an old one its old node. */
  lemma AddNodeOk(img: Image, st: Labelling, t: Point, key: string)
    requires ValidImage(img) && InImage(img, t) && Member(img, t)
    requires KeysOk(img, st, Position(img, t)) && Key(t) !in st.index
    requires key in AddPixel(img, st, t).index
    ensures NodeOk(img, AddPixel(img, st, t), key, Position(img, t) + 1)
  {
    var st' := AddPixel(img, st, t);
    var m := |st.forest.parent|;
    if key == Key(t) {
      assert st'.index[key] == m;
      assert st'.forest.nodes[m] == Node(Key(t), t.x, t.y, HexAt(img, t), Box(t.y, t.y, t.x, t.x), None, false);
    } else {
      assert NodeOk(img, st, key, Position(img, t));
      var i := st.index[key];
      assert st'.index[key] == i && i < m;
      assert st'.forest.nodes[i] == st'.forest.nodes[..m][i] == st.forest.nodes[i];
    }
  }

  /** After `makeSet` every member pixel up to `t` has a node. */
  lemma AddLabelled(img: Image, st: Labelling, t: Point, p: Point)
    requires ValidImage(img) && InImage(img, t) && Member(img, t)
    requires KeysOk(img, st, Position(img, t)) && Key(t) !in st.index
    requires Member(img, p) && Position(img, p) < Position(img, t) + 1
    ensures Labelled(AddPixel(img, st, t), p)
  {
    if p != t {
      if Position(img, p) == Position(img, t) {
        PositionInjective(img, p, t);
      }
      assert Labelled(st, p);
    }
  }

  /** An old key keeps its node under `makeSet`, and that node's root is an old node. */
  lemma AddOld(img: Image, st: Labelling, t: Point, p: Point)
    requires ValidImage(img) && InImage(img, t)
    requires KeysOk(img, st, Position(img, t)) && Key(t) !in st.index
    requires Labelled(AddPixel(img, st, t), p) && Key(p) != Key(t)
    ensures Labelled(st, p)
    ensures var st' := AddPixel(img, st, t);
      && st'.index[Key(p)] == st.index[Key(p)]
      && Root(st'.forest, st'.index[Key(p)]) == Root(st.forest, st.index[Key(p)]) < |st.forest.parent|
  {
    KeyNamesPixel(img, st, Position(img, t), p);
  }

  /** After `makeSet`, `t`'s set holds `t` alone. */
  lemma AddPairNew(img: Image, st: Labelling, t: Point, p: Point, q: Point)
    requires ValidImage(img) && InImage(img, t)
    requires KeysOk(img, st, Position(img, t)) && Key(t) !in st.index
    requires SamePixelSet(AddPixel(img, st, t), p, q) && (Key(p) == Key(t) || Key(q) == Key(t))
    ensures p == t && q == t
    ensures Member(img, t) ==> Linked(img, Position(img, t) + 1, p, q)
  {
    var st' := AddPixel(img, st, t);
    var m := |st.forest.parent|;
    assert st'.index[Key(t)] == m && Root(st'.forest, m) == m;
    if Key(p) != Key(t) {
      AddOld(img, st, t, p);
      assert false;
    } else if Key(q) != Key(t) {
      AddOld(img, st, t, q);
      assert false;
    }
    IndexStringInjective(p.x, p.y, t.x, t.y);
    IndexStringInjective(q.x, q.y, t.x, t.y);
    if Member(img, t) {
      LinkedRefl(img, Position(img, t) + 1, t);
    }
  }

  /** After `makeSet`, two older pixels share a set exactly when they did before. */
  lemma AddPairOld(img: Image, st: Labelling, t: Point, p: Point, q: Point)
    requires ValidImage(img) && InImage(img, t)
    requires KeysOk(img, st, Position(img, t)) && Key(t) !in st.index
    requires Key(p) != Key(t) && Key(q) != Key(t)
    ensures SamePixelSet(AddPixel(img, st, t), p, q) <==> SamePixelSet(st, p, q)
  {
    var st' := AddPixel(img, st, t);
    if Labelled(st', p) && Labelled(st', q) {
      AddOld(img, st, t, p);
      AddOld(img, st, t, q);
    }
    if SamePixelSet(st, p, q) {
      AddKeepsNode(img, st, t, p);
      AddKeepsNode(img, st, t, q);
    }
  }

  /** Two pixels share a set after `makeSet` only if they are both `t` or shared one before. */
  lemma AddPairSound(img: Image, st: Labelling, t: Point, p: Point, q: Point)
    requires ValidImage(img) && InImage(img, t) && Member(img, t)
    requires KeysOk(img, st, Position(img, t)) && Sound(img, st, Position(img, t)) && Key(t) !in st.index
    requires SamePixelSet(AddPixel(img, st, t), p, q)
    ensures Linked(img, Position(img, t) + 1, p, q)
  {
    if Key(p) == Key(t) || Key(q) == Key(t) {
      AddPairNew(img, st, t, p, q);
    } else {
      AddPairOldLinked(img, st, t, p, q);
    }
  }

  /** Two older pixels in one set after `makeSet` were joined by a walk before `t`. */
  lemma AddPairOldLinked(img: Image, st: Labelling, t: Point, p: Point, q: Point)
    requires ValidImage(img) && InImage(img, t)
    requires KeysOk(img, st, Position(img, t)) && Sound(img, st, Position(img, t)) && Key(t) !in st.index
    requires Key(p) != Key(t) && Key(q) != Key(t)
    requires SamePixelSet(AddPixel(img, st, t), p, q)
    ensures Linked(img, Position(img, t) + 1, p, q)
  {
    var k := Position(img, t);
    AddPairOld(img, st, t, p, q);
    assert Linked(img, k, p, q);
    LinkedMono(img, k, k + 1, p, q);
  }

  lemma AddSound(img: Image, st: Labelling, t: Point)
    requires ValidImage(img) && InImage(img, t) && Member(img, t)
    requires KeysOk(img, st, Position(img, t)) && Sound(img, st, Position(img, t)) && Key(t) !in st.index
    ensures Sound(img, AddPixel(img, st, t), Position(img, t) + 1)
  {
    forall p, q | SamePixelSet(AddPixel(img, st, t), p, q)
      ensures Linked(img, Position(img, t) + 1, p, q)
    {
      AddPairSound(img, st, t, p, q);
    }
  }

  /** `makeSet` splits no set. */
  lemma AddGrows(img: Image, st: Labelling, t: Point)
    requires ValidImage(img) && InImage(img, t) && Valid(st.forest) && Key(t) !in st.index
    ensures Grows(st, AddPixel(img, st, t))
  {
    var st' := AddPixel(img, st, t);
    forall p, q | SamePixelSet(st, p, q)
      ensures SamePixelSet(st', p, q)
    {
      AddKeepsNode(img, st, t, p);
      AddKeepsNode(img, st, t, q);
    }
  }

  /** `makeSet` leaves an old pixel's node, and that node's root, where they were. */
  lemma AddKeepsNode(img: Image, st: Labelling, t: Point, p: Point)
    requires ValidImage(img) && InImage(img, t) && Valid(st.forest) && Key(t) !in st.index
    requires Labelled(st, p)
    ensures var st' := AddPixel(img, st, t);
      && Labelled(st', p) && st'.index[Key(p)] == st.index[Key(p)]
      && Root(st'.forest, st.index[Key(p)]) == Root(st.forest, st.index[Key(p)])
  {
    assert Key(p) != Key(t);
  }

  lemma GrowsComplete(img: Image, st: Labelling, st': Labelling, k: int)
    requires Complete(img, st, k) && Grows(st, st')
    ensures Complete(img, st', k)
  {
    forall p, q |
      && Member(img, p) && Position(img, p) < k
      && Member(img, q) && Position(img, q) < k
      && Adjacent(p, q) && At(img, p) == At(img, q)
      ensures SamePixelSet(st', p, q)
    {
      assert SamePixelSet(st, p, q);
    }
  }

  /**
   * `union(tree, neighbor)` joined the set of `t` with that of a pixel `nb` it is linked to:
   * pixels newly in one set are linked through the walk `t`–`nb`.
   */
  lemma MergedPair(img: Image, st: Labelling, k: int, t: Point, nb: Point, p: Point, q: Point)
    requires Sound(img, st, k) && Linked(img, k, t, nb)
    requires || SamePixelSet(st, p, q)
             || (SamePixelSet(st, p, t) && SamePixelSet(st, nb, q))
             || (SamePixelSet(st, p, nb) && SamePixelSet(st, t, q))
    ensures Linked(img, k, p, q)
  {
    if SamePixelSet(st, p, q) {
    } else if SamePixelSet(st, p, t) && SamePixelSet(st, nb, q) {
      LinkedTrans(img, k, p, t, nb);
      LinkedTrans(img, k, p, nb, q);
    } else {
      LinkedSym(img, k, t, nb);
      LinkedTrans(img, k, p, nb, t);
      LinkedTrans(img, k, p, t, q);
    }
  }

  /**
   * The scan while it visits member pixel `t`: `t` has its node, every set is sound up to `t`,
   * pairs without `t` are complete, and each neighbour in `done` that is an earlier member of
   * `t`'s colour already shares `t`'s set.
   */
  ghost predicate Visiting(img: Image, st: Labelling, t: Point, done: seq<Point>) {
    && ValidImage(img) && InImage(img, t) && Member(img, t)
    && KeysOk(img, st, Position(img, t) + 1) && Sound(img, st, Position(img, t) + 1)
    && Complete(img, st, Position(img, t)) && Labelled(st, t)
    && forall j :: 0 <= j < |done| ==>
         Member(img, done[j]) && Position(img, done[j]) < Position(img, t) && At(img, done[j]) == At(img, t) ==>
           SamePixelSet(st, t, done[j])
  }

  /** `neighbor?.color === tree.color` holds exactly for a member neighbour of `t`'s colour. */
  lemma NeighbourColour(img: Image, st: Labelling, t: Point, nb: Point)
    requires Visiting(img, st, t, []) && Key(nb) in st.index
    ensures Labelled(st, nb) && Member(img, nb) && Position(img, nb) < Position(img, t) + 1
    ensures st.forest.nodes[st.index[Key(nb)]].color == st.forest.nodes[st.index[Key(t)]].color
      <==> At(img, nb) == At(img, t)
  {
    var k := Position(img, t) + 1;
    KeyNamesPixel(img, st, k, nb);
    KeyNamesPixel(img, st, k, t);
    HexAtInjective(img, t, nb);
  }

  /** Only the neighbours in `done` matter to `Visiting`. */
  lemma VisitingPrefix(img: Image, st: Labelling, t: Point, done: seq<Point>)
    requires Visiting(img, st, t, done)
    ensures Visiting(img, st, t, [])
  {
  }

  /** A neighbour that is not an indexed member of `t`'s colour needs no union. */
  lemma VisitSkip(img: Image, st: Labelling, t: Point, done: seq<Point>, nb: Point)
    requires Visiting(img, st, t, done)
    requires !(Labelled(st, nb) && Member(img, nb) && At(img, nb) == At(img, t))
    ensures Visiting(img, st, t, done + [nb])
  {
    var all := done + [nb];
    forall j | 0 <= j < |all| &&
      Member(img, all[j]) && Position(img, all[j]) < Position(img, t) && At(img, all[j]) == At(img, t)
      ensures SamePixelSet(st, t, all[j])
    {
      if j < |done| {
        assert all[j] == done[j];
      } else {
        assert false;
      }
    }
  }

  /** After `union(tree, neighbor)` with a linked neighbour, the visit goes on with `nb` done. */
  lemma VisitUnited(img: Image, st: Labelling, st': Labelling, t: Point, done: seq<Point>, nb: Point)
    requires Visiting(img, st, t, done) && Labelled(st, nb)
    requires Linked(img, Position(img, t) + 1, t, nb)
    requires st'.index == st.index && st'.forest.nodes == st.forest.nodes
    requires Valid(st'.forest) && |st'.forest.parent| == |st.forest.parent|
    requires SameSet(st'.forest, st.index[Key(t)], st.index[Key(nb)])
    requires Merges(st.forest, st'.forest, st.index[Key(t)], st.index[Key(nb)])
    ensures Visiting(img, st', t, done + [nb]) && Grows(st, st')
  {
    var k := Position(img, t) + 1;
    UnionKeeps(img, st, st', k);
    UnionSound(img, st, st', t, nb);
    UnionGrows(st, st', t, nb);
    GrowsComplete(img, st, st', k - 1);
    var all := done + [nb];
    forall j | 0 <= j < |all| &&
      Member(img, all[j]) && Position(img, all[j]) < Position(img, t) && At(img, all[j]) == At(img, t)
      ensures SamePixelSet(st', t, all[j])
    {
      if j < |done| {
        assert all[j] == done[j];
        assert SamePixelSet(st, t, done[j]);
      }
    }
  }

  /** Pixels in one set after the union are linked. */
  lemma UnionSound(img: Image, st: Labelling, st': Labelling, t: Point, nb: Point)
    requires Sound(img, st, Position(img, t) + 1) && Labelled(st, t) && Labelled(st, nb)
    requires Linked(img, Position(img, t) + 1, t, nb) && Valid(st.forest)
    requires st'.index == st.index && Valid(st'.forest) && |st'.forest.parent| == |st.forest.parent|
    requires Merges(st.forest, st'.forest, st.index[Key(t)], st.index[Key(nb)])
    ensures Sound(img, st', Position(img, t) + 1)
  {
    forall p, q | SamePixelSet(st', p, q)
      ensures Linked(img, Position(img, t) + 1, p, q)
    {
      MergedSets(st, st', t, nb, p, q);
      MergedPair(img, st, Position(img, t) + 1, t, nb, p, q);
    }
  }

  /** `Merges` read on pixels: a pair in one set after the union was in one before, or was joined. */
  lemma MergedSets(st: Labelling, st': Labelling, t: Point, nb: Point, p: Point, q: Point)
    requires Labelled(st, t) && Labelled(st, nb) && Valid(st.forest)
    requires st'.index == st.index && Valid(st'.forest) && |st'.forest.parent| == |st.forest.parent|
    requires Merges(st.forest, st'.forest, st.index[Key(t)], st.index[Key(nb)])
    requires SamePixelSet(st', p, q)
    ensures || SamePixelSet(st, p, q)
            || (SamePixelSet(st, p, t) && SamePixelSet(st, nb, q))
            || (SamePixelSet(st, p, nb) && SamePixelSet(st, t, q))
  {
    var u, v := st.index[Key(p)], st.index[Key(q)];
    assert SameSet(st'.forest, u, v);
  }

  /** A union splits no set. */
  lemma UnionGrows(st: Labelling, st': Labelling, t: Point, nb: Point)
    requires Labelled(st, t) && Labelled(st, nb) && Valid(st.forest)
    requires st'.index == st.index && Valid(st'.forest) && |st'.forest.parent| == |st.forest.parent|
    requires Merges(st.forest, st'.forest, st.index[Key(t)], st.index[Key(nb)])
    ensures Grows(st, st')
  {
  }

  /**
   * `hk`'s neighbour step: when `forest[neighbor_index]` exists and has `tree`'s colour, the two
   * sets are merged by `union`; otherwise nothing changes. Keys and nodes stay, no set is split,
   * and the visit of `t` goes on with `nb` done.
   */
  method TryUnion(img: Image, st: Labelling, t: Point, nb: Point, ghost done: seq<Point>) returns (st': Labelling)
    requires Visiting(img, st, t, done) && Adjacent(t, nb)
    ensures st'.index == st.index && st'.forest.nodes == st.forest.nodes
    ensures Visiting(img, st', t, done + [nb]) && Grows(st, st')
    ensures !(Labelled(st, nb) && Member(img, nb) && At(img, nb) == At(img, t)) ==> st' == st
    ensures Labelled(st, nb) && Member(img, nb) && At(img, nb) == At(img, t) ==>
      && |st'.forest.parent| == |st.forest.parent|
      && SamePixelSet(st', t, nb)
      && Merges(st.forest, st'.forest, st.index[Key(t)], st.index[Key(nb)])
  {
    st' := st;
    VisitingPrefix(img, st, t, done);
    if Key(nb) in st.index {
      NeighbourColour(img, st, t, nb);
      var a, b := st.index[Key(t)], st.index[Key(nb)];
      if st.forest.nodes[b].color == st.forest.nodes[a].color {
        LinkedEdge(img, Position(img, t) + 1, t, nb);
        var g := Union(st.forest, a, b);
        st' := Labelling(st.index, g);
        VisitUnited(img, st, st', t, done, nb);
      } else {
        VisitSkip(img, st, t, done, nb);
      }
    } else {
      VisitSkip(img, st, t, done, nb);
    }
  }

  /** Re-linking the forest under the same keys keeps the node invariant. */
  lemma UnionKeeps(img: Image, st: Labelling, st': Labelling, k: int)
    requires KeysOk(img, st, k) && Valid(st'.forest)
    requires st'.index == st.index && st'.forest.nodes == st.forest.nodes
    requires |st'.forest.parent| == |st.forest.parent|
    ensures KeysOk(img, st', k)
  {
    forall key | key in st'.index
      ensures NodeOk(img, st', key, k)
    {
      assert NodeOk(img, st, key, k);
    }
    forall p | Member(img, p) && Position(img, p) < k
      ensures Labelled(st', p)
    {
      assert Labelled(st, p);
    }
  }

  /**
   * Completing the step at `t`: a pair that involves `t` is `t` and an earlier edge neighbour,
   * which is north or west of it and so was offered to `union`.
   */
  lemma CompletePair(img: Image, st: Labelling, t: Point, nbs: seq<Point>, p: Point, q: Point)
    requires ValidImage(img) && InImage(img, t) && Complete(img, st, Position(img, t))
    requires forall q :: q in nbs <==> Before(q, t) && Touches(t, q, Four)
    requires forall j :: 0 <= j < |nbs| ==>
      Member(img, nbs[j]) && Position(img, nbs[j]) < Position(img, t) && At(img, nbs[j]) == At(img, t) ==>
        SamePixelSet(st, t, nbs[j])
    requires Member(img, p) && Position(img, p) < Position(img, t) + 1
    requires Member(img, q) && Position(img, q) < Position(img, t) + 1
    requires Adjacent(p, q) && At(img, p) == At(img, q)
    ensures SamePixelSet(st, p, q)
  {
    var k := Position(img, t);
    EarlierThanNew(img, t);
    if p == t {
      EarlierNeighbour(img, t, q);
      var j :| 0 <= j < |nbs| && nbs[j] == q;
      assert SamePixelSet(st, t, nbs[j]);
    } else if q == t {
      EarlierNeighbour(img, t, p);
      var j :| 0 <= j < |nbs| && nbs[j] == p;
      assert SamePixelSet(st, t, nbs[j]);
    } else {
      assert SamePixelSet(st, p, q);
    }
  }

  /** `makeSet` starts the visit of member pixel `t`. */
  lemma VisitStart(img: Image, st: Labelling, t: Point)
    requires ValidImage(img) && InImage(img, t) && Member(img, t)
    requires Scanned(img, st, Position(img, t))
    ensures Visiting(img, AddPixel(img, st, t), t, [])
  {
    var k := Position(img, t);
    AddFresh(img, st, t);
    AddKeys(img, st, t);
    AddSound(img, st, t);
    AddGrows(img, st, t);
    GrowsComplete(img, st, AddPixel(img, st, t), k);
  }

  /** Once both earlier neighbours are done, the scan invariant holds one position further on. */
  lemma VisitDone(img: Image, st: Labelling, t: Point, nbs: seq<Point>)
    requires Visiting(img, st, t, nbs)
    requires forall q :: q in nbs <==> Before(q, t) && Touches(t, q, Four)
    ensures Scanned(img, st, Position(img, t) + 1)
  {
    OffsetInBuffer(img, t);
    forall p, q |
      && Member(img, p) && Position(img, p) < Position(img, t) + 1
      && Member(img, q) && Position(img, q) < Position(img, t) + 1
      && Adjacent(p, q) && At(img, p) == At(img, q)
      ensures SamePixelSet(st, p, q)
    {
      CompletePair(img, st, t, nbs, p, q);
    }
  }

  /**
   * The loop body of `hk` at a member pixel `t`: `makeSet`, then `union` with each earlier
   * neighbour of the same colour. It keeps the scan invariant one position further on.
   */
  method VisitMember(img: Image, st: Labelling, t: Point) returns (st': Labelling)
    requires ValidImage(img) && InImage(img, t) && Member(img, t)
    requires Scanned(img, st, Position(img, t))
    ensures Scanned(img, st', Position(img, t) + 1)
  {
    VisitStart(img, st, t);
    st' := AddPixel(img, st, t);
    IndexRoundTrip(t.x, t.y, img.width);
    var neighbors := GetNeighbors(img, XyToI(t.x, t.y, img.width), Four);
    st' := UnionEarlier(img, st', t, neighbors);
    VisitDone(img, st', t, neighbors);
  }

  /** The inner loop of `hk`: `union` of `t` with each of its earlier neighbours in turn. */
  method UnionEarlier(img: Image, st: Labelling, t: Point, neighbors: seq<Point>) returns (st': Labelling)
    requires Visiting(img, st, t, [])
    requires forall q :: q in neighbors ==> Adjacent(t, q)
    ensures Visiting(img, st', t, neighbors)
  {
    st' := st;
    for j := 0 to |neighbors|
      invariant Visiting(img, st', t, neighbors[..j])
    {
      assert neighbors[j] in neighbors;
      st' := UnionNext(img, st', t, neighbors, j);
    }
    assert neighbors[..|neighbors|] == neighbors;
  }

  /** One turn of the inner loop: `union` with neighbour `j` when it is an earlier member of `t`'s colour. */
  method UnionNext(img: Image, st: Labelling, t: Point, neighbors: seq<Point>, j: nat) returns (st': Labelling)
    requires j < |neighbors| && Adjacent(t, neighbors[j])
    requires Visiting(img, st, t, neighbors[..j])
    ensures Visiting(img, st', t, neighbors[..j + 1])
  {
    TakeOneMore(neighbors, j);
    st' := TryUnion(img, st, t, neighbors[j], neighbors[..j]);
  }

  /** The first `j + 1` neighbours are the first `j` and neighbour `j`. */
  lemma TakeOneMore(s: seq<Point>, j: nat)
    requires j < |s|
    ensures s[..j + 1] == s[..j] + [s[j]]
  {
  }

  /** A same-colour walk among visited members stays inside one set. */
  lemma {:induction false} PathInOneSet(img: Image, st: Labelling, k: int, path: seq<Point>)
    requires KeysOk(img, st, k) && Complete(img, st, k) && IsPath(img, k, path)
    ensures SamePixelSet(st, path[0], path[|path| - 1])
    decreases |path|
  {
    var p := path[0];
    if |path| == 1 {
      assert Labelled(st, p);
    } else {
      var rest := path[..|path| - 1];
      var last := path[|path| - 1];
      assert IsPath(img, k, rest) by {
        assert forall j :: 0 <= j < |rest| ==> rest[j] == path[j];
      }
      PathInOneSet(img, st, k, rest);
      assert Adjacent(path[|path| - 2], last);
      assert SamePixelSet(st, path[|path| - 2], last);
    }
  }

  /** After the whole image, members and only members have nodes. */
  lemma ScannedKey(img: Image, st: Labelling, p: Point)
    requires Scanned(img, st, img.width * img.height)
    ensures InImage(img, p) ==> (Key(p) in st.index <==> Member(img, p))
  {
    var n := img.width * img.height;
    if Key(p) in st.index {
      KeyNamesPixel(img, st, n, p);
    }
    if Member(img, p) {
      OffsetInBuffer(img, p);
      assert Labelled(st, p);
    }
  }

  /** After the whole image, two members share a set exactly when a walk joins them. */
  lemma ScannedPair(img: Image, st: Labelling, p: Point, q: Point)
    requires Scanned(img, st, img.width * img.height)
    ensures Member(img, p) && Member(img, q) ==> (SamePixelSet(st, p, q) <==> Connected(img, p, q))
  {
    var n := img.width * img.height;
    if Member(img, p) && Member(img, q) && Connected(img, p, q) {
      var path :| IsPath(img, n, path) && path[0] == p && path[|path| - 1] == q;
      PathInOneSet(img, st, n, path);
    }
  }

  /** The result of the scan over the whole image. */
  lemma HkResult(img: Image, st: Labelling)
    requires Scanned(img, st, img.width * img.height)
    ensures Valid(st.forest)
    ensures forall key :: key in st.index ==> NodeOk(img, st, key, img.width * img.height)
    ensures forall p :: InImage(img, p) ==> (Key(p) in st.index <==> Member(img, p))
    ensures forall p, q :: Member(img, p) && Member(img, q) ==>
      (SamePixelSet(st, p, q) <==> Connected(img, p, q))
  {
    ScannedNodes(img, st);
    forall p
      ensures InImage(img, p) ==> (Key(p) in st.index <==> Member(img, p))
    {
      ScannedKey(img, st, p);
    }
    forall p, q
      ensures Member(img, p) && Member(img, q) ==> (SamePixelSet(st, p, q) <==> Connected(img, p, q))
    {
      ScannedPair(img, st, p, q);
    }
  }

  /** After the scan the forest is valid and every node describes its pixel. */
  lemma ScannedNodes(img: Image, st: Labelling)
    requires Scanned(img, st, img.width * img.height)
    ensures Valid(st.forest)
    ensures forall key :: key in st.index ==> NodeOk(img, st, key, img.width * img.height)
  {
  }

  /**
   * `hk(img)`: the first pass of Hoshen–Kopelman labelling over the RGBA buffer, four bytes
   * per pixel. Pure black pixels (alpha ignored) get no node; every other pixel gets one under
   * its `"x-y"` key, and two such pixels share a set exactly when a 4-connected walk of pixels of
   * their exact colour joins them.
   */
  method Hk(img: Image) returns (st: Labelling)
    requires ValidImage(img)
    ensures Valid(st.forest)
    ensures forall key :: key in st.index ==> NodeOk(img, st, key, img.width * img.height)
    ensures forall p :: InImage(img, p) ==> (Key(p) in st.index <==> Member(img, p))
    ensures forall p, q :: Member(img, p) && Member(img, q) ==>
      (SamePixelSet(st, p, q) <==> Connected(img, p, q))
  {
    st := Labelling(map[], Forest([], [], []));
    ScanStart(img, st);
    var i := 0;
    ghost var k := 0;
    while i < |img.data|
      invariant 0 <= i <= |img.data| && i == 4 * k
      invariant Scanned(img, st, k)
    {
      st := ScanPixel(img, st, i, k);
      i, k := i + 4, k + 1;
    }
    assert k == img.width * img.height;
    HkResult(img, st);
  }

  /** One turn of `hk`'s loop: the pixel whose bytes start at offset `i` is skipped or visited. */
  method ScanPixel(img: Image, st: Labelling, i: nat, ghost k: nat) returns (st': Labelling)
    requires ValidImage(img) && i < |img.data| && i == 4 * k
    requires Scanned(img, st, k)
    ensures Scanned(img, st', k + 1)
  {
    PixelAtOffset(img, i);
    var t := IToXy(i, img.width);
    assert k == Position(img, t);
    if img.data[i] == 0 && img.data[i + 1] == 0 && img.data[i + 2] == 0 {
      SkipPixel(img, st, t);
      st' := st;
    } else {
      st' := VisitMember(img, st, t);
    }
  }

  /** Before the first pixel nothing is visited and the forest is empty. */
  lemma ScanStart(img: Image, st: Labelling)
    requires ValidImage(img) && st == Labelling(map[], Forest([], [], []))
    ensures Scanned(img, st, 0)
  {
    forall p | Member(img, p)
      ensures 0 <= Position(img, p)
    {
      OffsetInBuffer(img, p);
    }
  }

  /** The scan's offset `i` is the first byte of pixel `i_to_xy(i, width)`, inside the image. */
  lemma PixelAtOffset(img: Image, i: nat)
    requires ValidImage(img) && i % 4 == 0 && i < |img.data|
    ensures 0 < img.width
    ensures var t := IToXy(i, img.width);
      && InImage(img, t) && 4 * Position(img, t) == i && i + 3 < |img.data|
      && At(img, t) == Rgb(img.data[i], img.data[i + 1], img.data[i + 2])
  {
    var t := IToXy(i, img.width);
    var j := Position(img, t);
    assert 4 * j <= i < 4 * j + 4;
    DivModUnique(i, 4, j, i - 4 * j);
    if img.height <= t.y {
      MulMonotone(img.height, t.y, img.width);
      assert false;
    }
  }
}
