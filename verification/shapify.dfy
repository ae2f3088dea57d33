/**
 * The two renderers of src/utils/shapify.ts, without the canvas: `render_image_v1` folds the
 * image into one bounding box per colour, and `render_image_v2` keeps the `hk` segments whose
 * box is large enough to draw.
 */
module Shapify {
  import opened Hex
  import opened Raster
  import opened UnionFind
  import opened Ccl

  /** A box holds a pixel when the pixel lies within its four edges. */
  predicate Holds(b: Box, p: Point) {
    b.n <= p.y <= b.s && b.w <= p.x <= b.e
  }

  /**
   * Pixel `p`, scanned before position `k`, has the colour named `key`. The colour of each
   * pixel is read through `col`, which the scan instantiates with `HexAt`.
   */
  ghost predicate Pixel(img: Image, col: Point -> string, k: int, key: string, p: Point) {
    InImage(img, p) && Position(img, p) < k && col(p) == key
  }

  /** Four pixels that reach the north, south, east and west edges of one box. */
  datatype Corners = Corners(n: Point, s: Point, e: Point, w: Point)

  /** The pixels `c`, of colour `key` and scanned before position `k`, reach the edges of `b`. */
  ghost predicate Witnessed(img: Image, col: Point -> string, k: int, key: string, b: Box, c: Corners) {
    && Pixel(img, col, k, key, c.n) && c.n.y == b.n
    && Pixel(img, col, k, key, c.s) && c.s.y == b.s
    && Pixel(img, col, k, key, c.e) && c.e.x == b.e
    && Pixel(img, col, k, key, c.w) && c.w.x == b.w
  }

  /**
   * After the first `k` pixels: each scanned colour has a box holding all its scanned pixels,
   * and `wit` names, for every box, scanned pixels of its colour on each of its edges.
   */
  ghost predicate Boxed(img: Image, col: Point -> string, k: int, aabb: map<string, Box>, wit: map<string, Corners>) {
    && (forall p :: InImage(img, p) && Position(img, p) < k ==>
          col(p) in aabb && Holds(aabb[col(p)], p))
    && (forall key :: key in aabb ==> key in wit && Witnessed(img, col, k, key, aabb[key], wit[key]))
  }

  /** The colour key of every pixel of the image, and the empty string outside it. */
  function ColourOf(img: Image): (col: Point -> string)
    requires ValidImage(img)
  {
    p => if InImage(img, p) then HexAt(img, p) else ""
  }

  /** Each edge of `b` is attained by a pixel of the image whose colour is `key`. */
  ghost predicate Attained(img: Image, key: string, b: Box)
    requires ValidImage(img)
  {
    && (exists p :: InImage(img, p) && HexAt(img, p) == key && p.y == b.n)
    && (exists p :: InImage(img, p) && HexAt(img, p) == key && p.y == b.s)
    && (exists p :: InImage(img, p) && HexAt(img, p) == key && p.x == b.e)
    && (exists p :: InImage(img, p) && HexAt(img, p) == key && p.x == b.w)
  }

  function Max(a: int, b: int): int {
    if a < b then b else a
  }

  function Min(a: int, b: int): int {
    if a < b then a else b
  }

  /** The pixel at row-major position `k`. */
  function PixelAt(img: Image, k: nat): (t: Point)
    requires ValidImage(img) && k < img.width * img.height
    ensures InImage(img, t) && Position(img, t) == k
  {
    PixelAtOffset(img, 4 * k);
    IToXy(4 * k, img.width)
  }

  /**
   * One step of the bounding-box fold at pixel `t` of colour `hex`: a new colour gets the
   * one-pixel box; a known one keeps its north edge, takes `t`'s row as its south edge and
   * widens east and west to `t`'s column.
   */
  function AddToBox(aabb: map<string, Box>, hex: string, t: Point): map<string, Box> {
    if hex !in aabb then aabb[hex := Box(t.y, t.y, t.x, t.x)]
    else
      var bb := aabb[hex];
      aabb[hex := Box(bb.n, t.y, Max(bb.e, t.x), Min(bb.w, t.x))]
  }

  /** The boxes after the first `k` pixels, with colours read through `col`. */
  function BoxesUpTo(img: Image, col: Point -> string, k: nat): map<string, Box>
    requires ValidImage(img) && k <= img.width * img.height
  {
    if k == 0 then map[]
    else
      var t := PixelAt(img, k - 1);
      AddToBox(BoxesUpTo(img, col, k - 1), col(t), t)
  }

  /**
   * The edge pixels alongside `AddToBox`: a new colour is reached by `t` on every edge; a
   * known one by `t` on the south edge and on whichever side `t` widens.
   */
  ghost function AddToCorners(aabb: map<string, Box>, wit: map<string, Corners>, hex: string, t: Point): map<string, Corners> {
    if hex in aabb && hex in wit then
      var bb := aabb[hex];
      var c := wit[hex];
      wit[hex := Corners(c.n, t, if bb.e < t.x then t else c.e, if bb.w < t.x then c.w else t)]
    else wit[hex := Corners(t, t, t, t)]
  }

  /** The edge pixels after the first `k` pixels. */
  ghost function CornersUpTo(img: Image, col: Point -> string, k: nat): map<string, Corners>
    requires ValidImage(img) && k <= img.width * img.height
  {
    if k == 0 then map[]
    else
      var t := PixelAt(img, k - 1);
      AddToCorners(BoxesUpTo(img, col, k - 1), CornersUpTo(img, col, k - 1), col(t), t)
  }

  /**
   * The bounding-box loop of `render_image_v1`: for each pixel in scan order, a colour seen
   * for the first time gets the one-pixel box; a colour seen before keeps its north edge, moves
   * its south edge to the current row and widens east and west. Because rows are scanned in
   * order, the result is each colour's exact bounding box: it holds every pixel of the colour,
   * and each of its edges is reached by one.
   */
  method BoundingBoxes(img: Image) returns (aabb: map<string, Box>)
    requires ValidImage(img)
    ensures forall p :: InImage(img, p) ==> HexAt(img, p) in aabb && Holds(aabb[HexAt(img, p)], p)
    ensures forall key :: key in aabb ==> Attained(img, key, aabb[key])
  {
    aabb := map[];
    for k := 0 to img.width * img.height
      invariant aabb == BoxesUpTo(img, ColourOf(img), k)
    {
      var i := 4 * k;
      ScanStep(img, k, aabb);
      var t := IToXy(i, img.width);
      var hex := RgbToHex(img.data[i], img.data[i + 1], img.data[i + 2]);
      if hex !in aabb {
        aabb := aabb[hex := Box(t.y, t.y, t.x, t.x)];
      } else {
        var bb := aabb[hex];
        aabb := aabb[hex := Box(bb.n, t.y, Max(bb.e, t.x), Min(bb.w, t.x))];
      }
    }
    ghost var wit := BoxesExact(img, ColourOf(img), aabb);
    HoldsHex(img, ColourOf(img), aabb);
    AttainedHex(img, ColourOf(img), aabb, wit);
  }

  /**
   * Over the whole image, every pixel lies in the box of its colour, and `wit` names pixels of
   * each box's colour on its four edges.
   */
  lemma BoxesExact(img: Image, col: Point -> string, aabb: map<string, Box>) returns (wit: map<string, Corners>)
    requires ValidImage(img) && aabb == BoxesUpTo(img, col, img.width * img.height)
    ensures forall p :: InImage(img, p) ==> col(p) in aabb && Holds(aabb[col(p)], p)
    ensures forall key :: key in aabb ==>
      key in wit && Witnessed(img, col, img.width * img.height, key, aabb[key], wit[key])
  {
    wit := CornersUpTo(img, col, img.width * img.height);
    BoxesUpToBoxed(img, col, img.width * img.height);
    forall p | InImage(img, p)
      ensures col(p) in aabb && Holds(aabb[col(p)], p)
    {
      OffsetInBuffer(img, p);
    }
  }

  /** Read through `HexAt`, the boxes hold every pixel of their colour. */
  lemma HoldsHex(img: Image, col: Point -> string, aabb: map<string, Box>)
    requires ValidImage(img) && forall p :: InImage(img, p) ==> col(p) == HexAt(img, p)
    requires forall p :: InImage(img, p) ==> col(p) in aabb && Holds(aabb[col(p)], p)
    ensures forall p :: InImage(img, p) ==> HexAt(img, p) in aabb && Holds(aabb[HexAt(img, p)], p)
  {
  }

  /** Read through `HexAt`, each edge of every box is reached by a pixel of its colour. */
  lemma AttainedHex(img: Image, col: Point -> string, aabb: map<string, Box>, wit: map<string, Corners>)
    requires ValidImage(img) && forall p :: InImage(img, p) ==> col(p) == HexAt(img, p)
    requires forall key :: key in aabb ==>
      key in wit && Witnessed(img, col, img.width * img.height, key, aabb[key], wit[key])
    ensures forall key :: key in aabb ==> Attained(img, key, aabb[key])
  {
    forall key | key in aabb
      ensures Attained(img, key, aabb[key])
    {
      WitnessedAttained(img, col, key, aabb[key], wit[key]);
    }
  }

  /** The scan at offset `4 * k` performs the `k`-th step of the fold. */
  lemma ScanStep(img: Image, k: nat, aabb: map<string, Box>)
    requires ValidImage(img) && k < img.width * img.height
    requires aabb == BoxesUpTo(img, ColourOf(img), k)
    ensures 0 < img.width && 4 * k + 2 < |img.data|
    ensures var i := 4 * k;
      AddToBox(aabb, RgbToHex(img.data[i], img.data[i + 1], img.data[i + 2]), IToXy(i, img.width))
        == BoxesUpTo(img, ColourOf(img), k + 1)
  {
    ScanColour(img, 4 * k, k);
  }

  /** At offset `i = 4 * k` the scan reads pixel `k`, and the key it builds is that pixel's colour. */
  lemma ScanColour(img: Image, i: nat, k: nat)
    requires ValidImage(img) && i == 4 * k && i < |img.data|
    ensures 0 < img.width && i + 2 < |img.data| && k < img.width * img.height
    ensures IToXy(i, img.width) == PixelAt(img, k)
    ensures RgbToHex(img.data[i], img.data[i + 1], img.data[i + 2]) == ColourOf(img)(PixelAt(img, k))
  {
    DivModUnique(i, 4, k, 0);
    PixelAtOffset(img, i);
  }

  /** The fold over the first `k` pixels keeps every box tight around its colour's pixels. */
  lemma {:induction false} BoxesUpToBoxed(img: Image, col: Point -> string, k: nat)
    requires ValidImage(img) && k <= img.width * img.height
    ensures Boxed(img, col, k, BoxesUpTo(img, col, k), CornersUpTo(img, col, k))
    decreases k
  {
    if k == 0 {
      BoxedStart(img, col);
    } else {
      var j := k - 1;
      var prev, pw := BoxesUpTo(img, col, j), CornersUpTo(img, col, j);
      BoxesUpToBoxed(img, col, j);
      var t := PixelAt(img, j);
      BoxStep(img, col, k, prev, pw, t);
    }
  }

  /** The edge pixels of a box are pixels of the colour `HexAt` names. */
  lemma WitnessedAttained(img: Image, col: Point -> string, key: string, b: Box, c: Corners)
    requires ValidImage(img) && forall p :: InImage(img, p) ==> col(p) == HexAt(img, p)
    requires Witnessed(img, col, img.width * img.height, key, b, c)
    ensures Attained(img, key, b)
  {
    assert col(c.n) == HexAt(img, c.n) && col(c.s) == HexAt(img, c.s);
    assert col(c.e) == HexAt(img, c.e) && col(c.w) == HexAt(img, c.w);
  }

  /** Before the first pixel there is nothing to hold. */
  lemma BoxedStart(img: Image, col: Point -> string)
    ensures Boxed(img, col, 0, map[], map[])
  {
    forall p | InImage(img, p)
      ensures 0 <= Position(img, p)
    {
      MulMonotone(0, p.y, img.width);
    }
  }

  /** Scanning pixel `t`, the `k`-th, keeps the boxes exact over the first `k` pixels. */
  lemma BoxStep(img: Image, col: Point -> string, k: nat, aabb: map<string, Box>, wit: map<string, Corners>, t: Point)
    requires 0 < k && Boxed(img, col, k - 1, aabb, wit) && InImage(img, t) && Position(img, t) == k - 1
    ensures Boxed(img, col, k, AddToBox(aabb, col(t), t), AddToCorners(aabb, wit, col(t), t))
  {
    var aabb' := AddToBox(aabb, col(t), t);
    var wit' := AddToCorners(aabb, wit, col(t), t);
    forall p | InImage(img, p) && Position(img, p) < k
      ensures col(p) in aabb' && Holds(aabb'[col(p)], p)
    {
      StepHolds(img, col, k, aabb, wit, t, p);
    }
    forall key | key in aabb'
      ensures key in wit' && Witnessed(img, col, k, key, aabb'[key], wit'[key])
    {
      StepWitnessed(img, col, k, aabb, wit, t, key);
    }
  }

  /**
   * Each pixel scanned so far lies in its colour's box after the step: the new pixel by
   * construction, an older one because its row is not below the new pixel's.
   */
  lemma StepHolds(img: Image, col: Point -> string, k: nat, aabb: map<string, Box>, wit: map<string, Corners>, t: Point, p: Point)
    requires 0 < k && Boxed(img, col, k - 1, aabb, wit) && InImage(img, t) && Position(img, t) == k - 1
    requires InImage(img, p) && Position(img, p) < k
    ensures var aabb' := AddToBox(aabb, col(t), t); col(p) in aabb' && Holds(aabb'[col(p)], p)
  {
    if Position(img, p) == k - 1 {
      PositionInjective(img, p, t);
      if col(t) in aabb {
        NorthAbove(img, col, k - 1, col(t), aabb[col(t)], wit[col(t)], t);
      }
    } else {
      assert col(p) in aabb && Holds(aabb[col(p)], p);
      if col(p) == col(t) {
        PositionOrdersRows(img, p, t);
      }
    }
  }

  /** Every box keeps pixels on its edges after the step: its old ones or the new pixel. */
  lemma StepWitnessed(img: Image, col: Point -> string, k: nat, aabb: map<string, Box>, wit: map<string, Corners>, t: Point, key: string)
    requires 0 < k && Boxed(img, col, k - 1, aabb, wit) && InImage(img, t) && Position(img, t) == k - 1
    requires key in AddToBox(aabb, col(t), t)
    ensures var wit' := AddToCorners(aabb, wit, col(t), t);
      key in wit' && Witnessed(img, col, k, key, AddToBox(aabb, col(t), t)[key], wit'[key])
  {
    assert Pixel(img, col, k, col(t), t);
    if key in aabb {
      WitnessedLater(img, col, k - 1, k, key, aabb[key], wit[key]);
    }
  }

  /** Pixels scanned before position `j` are scanned before any later position `k` too. */
  lemma WitnessedLater(img: Image, col: Point -> string, j: int, k: int, key: string, b: Box, c: Corners)
    requires j <= k && Witnessed(img, col, j, key, b, c)
    ensures Witnessed(img, col, k, key, b, c)
  {
  }

  /** The north edge is the row of an earlier pixel, so it is not below the current row. */
  lemma NorthAbove(img: Image, col: Point -> string, j: int, key: string, b: Box, c: Corners, t: Point)
    requires Witnessed(img, col, j, key, b, c) && InImage(img, t) && Position(img, t) == j
    ensures b.n <= t.y
  {
    PositionOrdersRows(img, c.n, t);
  }

  /** `(segment.s - segment.n) * (segment.e - segment.w)`. */
  function Area(b: Box): int {
    (b.s - b.n) * (b.e - b.w)
  }

  /** A segment is drawn unless its area is below 300 pixels. */
  predicate Drawn(segment: Node) {
    Area(segment.box) >= 300
  }

  /**
   * The `forEach` of `render_image_v2`: the segments that reach `drawRectangle`, in order.
   */
  function RenderSegments(segments: seq<Node>): (drawn: seq<Node>)
    ensures |drawn| <= |segments|
  {
    if segments == [] then []
    else
      var rest := RenderSegments(segments[1..]);
      if Drawn(segments[0]) then [segments[0]] + rest else rest
  }

  /** A segment is drawn exactly when it is in the list and large enough. */
  lemma {:induction false} RenderMembers(segments: seq<Node>, s: Node)
    ensures s in RenderSegments(segments) <==> s in segments && Drawn(s)
  {
    if segments != [] {
      RenderMembers(segments[1..], s);
      assert s in segments <==> s == segments[0] || s in segments[1..];
    }
  }

  /** Drawing a list in two parts draws the same segments in the same order. */
  lemma {:induction false} RenderAppend(a: seq<Node>, b: seq<Node>)
    ensures RenderSegments(a + b) == RenderSegments(a) + RenderSegments(b)
  {
    if a == [] {
      assert a + b == b;
    } else {
      assert (a + b)[1..] == a[1..] + b;
      RenderAppend(a[1..], b);
      var rest := RenderSegments(a[1..]);
      if Drawn(a[0]) {
        assert RenderSegments(a + b) == [a[0]] + (rest + RenderSegments(b));
      } else {
        assert RenderSegments(a + b) == rest + RenderSegments(b);
      }
    }
  }

  /** Filtering the drawn segments again changes nothing. */
  lemma {:induction false} RenderIdempotent(segments: seq<Node>)
    ensures RenderSegments(RenderSegments(segments)) == RenderSegments(segments)
  {
    if segments != [] {
      RenderIdempotent(segments[1..]);
      var rest := RenderSegments(segments[1..]);
      if Drawn(segments[0]) {
        assert ([segments[0]] + rest)[1..] == rest;
      }
    }
  }

  /** A node with the one-pixel box of `makeSet` has area 0. */
  lemma PixelBoxTooSmall(node: Node)
    requires node.box == Box(node.y, node.y, node.x, node.x)
    ensures !Drawn(node)
  {
  }

  /**
   * The segments `hk` returns, in the iteration order `keys` of its `forest` object (an order
   * the model leaves open).
   */
  function Segments(st: Labelling, keys: seq<string>): (segments: seq<Node>)
    requires Valid(st.forest)
    requires forall j :: 0 <= j < |keys| ==> keys[j] in st.index && st.index[keys[j]] < |st.forest.nodes|
    ensures |segments| == |keys|
    ensures forall j :: 0 <= j < |keys| ==> segments[j] == st.forest.nodes[st.index[keys[j]]]
  {
    seq(|keys|, j requires 0 <= j < |keys| => st.forest.nodes[st.index[keys[j]]])
  }

  /** Segments that all have the one-pixel box of `makeSet` are all discarded. */
  lemma {:induction false} PixelBoxesDropped(segments: seq<Node>)
    requires forall j :: 0 <= j < |segments| ==>
      segments[j].box == Box(segments[j].y, segments[j].y, segments[j].x, segments[j].x)
    ensures RenderSegments(segments) == []
  {
    if segments != [] {
      PixelBoxTooSmall(segments[0]);
      PixelBoxesDropped(segments[1..]);
    }
  }

  /**
   * `hk` never widens a box (`union` leaves n, s, e and w alone), so every segment it returns
   * has area 0 and `render_image_v2` draws none of them.
   */
  lemma HkDrawsNothing(img: Image, st: Labelling, keys: seq<string>)
    requires Valid(st.forest)
    requires forall key :: key in st.index ==> NodeOk(img, st, key, img.width * img.height)
    requires forall j :: 0 <= j < |keys| ==> keys[j] in st.index
    ensures forall j :: 0 <= j < |keys| ==> st.index[keys[j]] < |st.forest.nodes|
    ensures RenderSegments(Segments(st, keys)) == []
  {
    forall j | 0 <= j < |keys|
      ensures st.index[keys[j]] < |st.forest.nodes|
      ensures var node := st.forest.nodes[st.index[keys[j]]]; node.box == Box(node.y, node.y, node.x, node.x)
    {
      assert NodeOk(img, st, keys[j], img.width * img.height);
    }
    PixelBoxesDropped(Segments(st, keys));
  }
}
