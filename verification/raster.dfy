/**
 * Pixel addressing of an `ImageData` buffer: `xy_to_i` and `i_to_xy` (used throughout
 * src/utils and pinned by src/__tests__/utils/index.test.ts) and channel access.
 */
module Raster {
  import opened Hex

  datatype Point = Point(x: int, y: int)

  /** An `ImageData`: `width * height` pixels of four bytes (r, g, b, a), stored row by row. */
  datatype Image = Image(width: nat, height: nat, data: seq<Byte>)

  predicate ValidImage(img: Image) {
    |img.data| == 4 * (img.width * img.height)
  }

  predicate InImage(img: Image, p: Point) {
    0 <= p.x < img.width && 0 <= p.y < img.height
  }

  /** `xy_to_i([x, y], width, bpp)`: the offset of pixel (x, y) in a buffer of `bpp` bytes per pixel. */
  function XyToI(x: int, y: int, width: int, bpp: int := 4): int
  {
    (y * width + x) * bpp
  }

  /** `i_to_xy(i, width)`: the pixel whose four bytes contain offset `i`. */
  function IToXy(i: nat, width: nat): (p: Point)
    requires 0 < width
    ensures 0 <= p.x < width && 0 <= p.y
    ensures XyToI(p.x, p.y, width) <= i < XyToI(p.x, p.y, width) + 4
  {
    var pixel := i / 4;
    DivMod(i, 4);
    DivMod(pixel, width);
    Point(pixel % width, pixel / width)
  }

  /** The quotient and remainder are the only ones: `q * w + r` with `0 <= r < w`. */
  lemma {:induction false} DivModUnique(n: int, w: int, q: int, r: int)
    requires 0 < w && 0 <= r < w && n == q * w + r
    ensures n / w == q && n % w == r
  {
    var q', r' := n / w, n % w;
    assert n == q' * w + r';
    if q' < q {
      MulMonotone(q' + 1, q, w);
    } else if q < q' {
      MulMonotone(q + 1, q', w);
    }
  }

  /** Multiplying by a positive factor keeps order. */
  lemma MulMonotone(a: int, b: int, w: int)
    requires a <= b && 0 < w
    ensures a * w <= b * w
  {
    assert b * w - a * w == (b - a) * w;
  }

  /** `i_to_xy` undoes `xy_to_i` on every pixel of a row of the given width. */
  lemma IndexRoundTrip(x: int, y: int, width: nat)
    requires 0 <= x < width && 0 <= y
    ensures XyToI(x, y, width) >= 0
    ensures IToXy(XyToI(x, y, width), width) == Point(x, y)
  {
    var i := XyToI(x, y, width);
    MulMonotone(0, y, width);
    DivModUnique(i, 4, y * width + x, 0);
    DivModUnique(y * width + x, width, y, x);
  }

  /** `xy_to_i` undoes `i_to_xy` up to the byte within the pixel. */
  lemma OffsetRoundTrip(i: nat, width: nat)
    requires 0 < width
    ensures XyToI(IToXy(i, width).x, IToXy(i, width).y, width) == i - i % 4
  {
    DivMod(i, 4);
  }

  /** The offset of a pixel inside the image lies inside the buffer. */
  lemma OffsetInBuffer(img: Image, p: Point)
    requires ValidImage(img) && InImage(img, p)
    ensures 0 <= XyToI(p.x, p.y, img.width, 1) < img.width * img.height
    ensures XyToI(p.x, p.y, img.width) == 4 * XyToI(p.x, p.y, img.width, 1)
    ensures XyToI(p.x, p.y, img.width) + 3 < |img.data|
  {
    MulMonotone(0, p.y, img.width);
    MulMonotone(p.y + 1, img.height, img.width);
    assert (p.y + 1) * img.width == p.y * img.width + img.width;
  }

  /** The (r, g, b) bytes of pixel `p`; alpha is not read. */
  function At(img: Image, p: Point): (c: Rgb)
    requires ValidImage(img) && InImage(img, p)
    ensures IsByteRgb(c)
  {
    OffsetInBuffer(img, p);
    var i := XyToI(p.x, p.y, img.width);
    Rgb(img.data[i], img.data[i + 1], img.data[i + 2])
  }

  /**
   * The bytes `data[i]`, `data[i + 1]` and `data[i + 2]` at `i = xy_to_i([x, y], width)` all lie
   * in the buffer. No bounds are checked on the way: a column past the right edge lands in the
   * next row, and only an offset outside the buffer reads `undefined`.
   */
  predicate Readable(img: Image, p: Point) {
    var i := XyToI(p.x, p.y, img.width);
    0 <= i && i + 2 < |img.data|
  }

  /** The (r, g, b) bytes read at `xy_to_i([x, y], width)`, wherever in the buffer that falls. */
  function Sample(img: Image, p: Point): (c: Rgb)
    requires Readable(img, p)
    ensures IsByteRgb(c)
  {
    var i := XyToI(p.x, p.y, img.width);
    Rgb(img.data[i], img.data[i + 1], img.data[i + 2])
  }

  /** Inside the image the bytes read are the pixel's own colour. */
  lemma SampleInImage(img: Image, p: Point)
    requires ValidImage(img) && InImage(img, p)
    ensures Readable(img, p) && Sample(img, p) == At(img, p)
  {
    OffsetInBuffer(img, p);
  }

  /** A column `width` further right reads the same column one row further down. */
  lemma SampleWraps(img: Image, p: Point)
    ensures Readable(img, Point(p.x + img.width, p.y)) <==> Readable(img, Point(p.x, p.y + 1))
    ensures Readable(img, Point(p.x, p.y + 1)) ==>
      Sample(img, Point(p.x + img.width, p.y)) == Sample(img, Point(p.x, p.y + 1))
  {
    assert (p.y + 1) * img.width == p.y * img.width + img.width;
  }

  /** The hex string of pixel `p`'s colour. */
  function HexAt(img: Image, p: Point): string
    requires ValidImage(img) && InImage(img, p)
  {
    var c := At(img, p);
    RgbToHex(c.r, c.g, c.b)
  }

  /** Equal hex strings at two pixels mean equal colours. */
  lemma HexAtInjective(img: Image, p: Point, q: Point)
    requires ValidImage(img) && InImage(img, p) && InImage(img, q)
    ensures HexAt(img, p) == HexAt(img, q) <==> At(img, p) == At(img, q)
  {
    if HexAt(img, p) == HexAt(img, q) {
      RgbToHexInjective(At(img, p), At(img, q));
    }
  }

  /** The row-major position of `p`, which is `xy_to_i` with one byte per pixel. */
  function Position(img: Image, p: Point): (r: int)
    ensures r == XyToI(p.x, p.y, img.width, 1)
  {
    p.y * img.width + p.x
  }

  /** Distinct pixels have distinct row-major positions. */
  lemma PositionInjective(img: Image, p: Point, q: Point)
    requires InImage(img, p) && InImage(img, q)
    requires Position(img, p) == Position(img, q)
    ensures p == q
  {
    DivModUnique(Position(img, p), img.width, p.y, p.x);
    DivModUnique(Position(img, q), img.width, q.y, q.x);
  }

  /** A pixel scanned earlier lies in the same row or an earlier one. */
  lemma PositionOrdersRows(img: Image, p: Point, q: Point)
    requires InImage(img, p) && InImage(img, q)
    requires Position(img, p) <= Position(img, q)
    ensures p.y <= q.y
  {
    if q.y < p.y {
      assert (q.y + 1) * img.width == q.y * img.width + img.width;
      MulMonotone(q.y + 1, p.y, img.width);
      assert false;
    }
  }

  /** The positions of the four edge neighbours of a pixel. */
  lemma PositionOfNeighbours(img: Image, p: Point)
    ensures Position(img, Point(p.x, p.y - 1)) == Position(img, p) - img.width
    ensures Position(img, Point(p.x, p.y + 1)) == Position(img, p) + img.width
    ensures Position(img, Point(p.x - 1, p.y)) == Position(img, p) - 1
    ensures Position(img, Point(p.x + 1, p.y)) == Position(img, p) + 1
  {
    assert (p.y - 1) * img.width == p.y * img.width - img.width;
    assert (p.y + 1) * img.width == p.y * img.width + img.width;
  }
}
